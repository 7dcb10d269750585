/** The clock behind time-based UUIDs (sections 4.2.1 and 4.1.5 of RFC 4122) as
    a state machine: which 100 ns ticks a request reserves, what one reading of
    the system clock does to the state, and what whole runs guarantee whatever
    the system clock does. */
module Clock {
  import opened Options
  import opened UuidTime

  const MAX_ADJUSTMENT: int := 10
  const SEQUENCES: int := 0x4000

  /** `last`, `adjustment` and `clock_seq` of get_clock. */
  datatype State = State(last: TimeVal, adj: int, clockSeq: ClockSeq)

  /** One call of get_clock: what the system clock says each time it is asked,
      and the number of ticks wanted. */
  datatype Request = Request(polls: seq<TimeVal>, num: int)

  /** The ticks a request was given, with the sequence they go out under.
      `epoch` counts the backward steps of the run before this request. */
  datatype Block = Block(start: int, len: nat, clockSeq: ClockSeq, epoch: nat)

  predicate IsReading(tv: TimeVal) {
    0 <= tv.sec && 0 <= tv.usec < 1_000_000
  }

  predicate IsRequest(r: Request) {
    forall tv <- r.polls :: IsReading(tv)
  }

  /** The last tick reserved so far. */
  function Tick(s: State): int {
    TickOf(s.last, s.adj)
  }

  predicate Before(a: TimeVal, b: TimeVal) {
    a.sec < b.sec || (a.sec == b.sec && a.usec < b.usec)
  }

  /** get_clock polls the clock again. */
  predicate Stalls(s: State, tv: TimeVal) {
    tv == s.last && s.adj >= MAX_ADJUSTMENT
  }

  /** The state after a reading has been accepted, before a bulk reservation. */
  function Advance(s: State, tv: TimeVal): State {
    if Before(tv, s.last) then State(tv, 0, (s.clockSeq + 1) % SEQUENCES)
    else if tv == s.last then s.(adj := s.adj + 1)
    else State(tv, 0, s.clockSeq)
  }

  /** Division and remainder of C, which truncate toward zero. */
  function CDiv(a: int, b: int): int
    requires b > 0
  {
    if a >= 0 then a / b else -((-a) / b)
  }

  function CMod(a: int, b: int): int
    requires b > 0
  {
    a - CDiv(a, b) * b
  }

  /** The bulk reservation of `num` ticks, carried from ticks into microseconds
      into seconds. */
  function Reserve(s: State, num: int): State {
    if num <= 1 then s
    else
      var adj := s.adj + num - 1;
      var usec := s.last.usec + CDiv(adj, 10);
      State(TimeVal(s.last.sec + CDiv(usec, 1_000_000), CMod(usec, 1_000_000)), CMod(adj, 10), s.clockSeq)
  }

  /** The first poll that does not stall, if there is one. */
  function Accepted(s: State, polls: seq<TimeVal>): (tv: Option<TimeVal>)
    ensures tv.Some? ==> tv.value in polls && !Stalls(s, tv.value)
    ensures tv.None? ==> forall p <- polls :: Stalls(s, p)
  {
    if polls == [] then None
    else if Stalls(s, polls[0]) then Accepted(s, polls[1..])
    else Some(polls[0])
  }

  /** A request waits out the polls that stall and no others. */
  lemma {:induction false} AcceptsFirstGoodPoll(s: State, polls: seq<TimeVal>, i: nat)
    requires i < |polls| && !Stalls(s, polls[i]) && forall j | 0 <= j < i :: Stalls(s, polls[j])
    ensures Accepted(s, polls) == Some(polls[i])
    decreases i
  {
    if i > 0 {
      AcceptsFirstGoodPoll(s, polls[1..], i - 1);
    }
  }

  /** One request; while every poll stalls it keeps spinning and changes nothing. */
  function Step(s: State, r: Request): State {
    match Accepted(s, r.polls)
    case None => s
    case Some(tv) => Reserve(Advance(s, tv), r.num)
  }

  function Count(num: int): nat {
    if num <= 1 then 1 else num
  }

  /** The time went back in this step, so the clock sequence is bumped. */
  predicate GoesBack(s: State, r: Request) {
    var tv := Accepted(s, r.polls);
    tv.Some? && Before(tv.value, s.last)
  }

  function Granted(s: State, epoch: nat, r: Request): seq<Block> {
    match Accepted(s, r.polls)
    case None => []
    case Some(tv) =>
      var s' := Advance(s, tv);
      [Block(Tick(s'), Count(r.num), s'.clockSeq, NextEpoch(s, epoch, r))]
  }

  function NextEpoch(s: State, epoch: nat, r: Request): nat {
    if GoesBack(s, r) then epoch + 1 else epoch
  }

  /** All blocks given out in a run, in order. */
  function Run(s: State, epoch: nat, rs: seq<Request>): seq<Block>
    decreases |rs|
  {
    if rs == [] then []
    else Granted(s, epoch, rs[0]) + Run(Step(s, rs[0]), NextEpoch(s, epoch, rs[0]), rs[1..])
  }

  /** The state after a run. */
  function Final(s: State, rs: seq<Request>): State
    decreases |rs|
  {
    if rs == [] then s else Final(Step(s, rs[0]), rs[1..])
  }

  /** How often the time goes back during a run. */
  function BackwardSteps(s: State, rs: seq<Request>): nat
    decreases |rs|
  {
    if rs == [] then 0
    else (if GoesBack(s, rs[0]) then 1 else 0) + BackwardSteps(Step(s, rs[0]), rs[1..])
  }

  // What one step keeps

  /** A state that get_clock can leave behind. */
  predicate WellFormed(s: State) {
    0 <= s.last.usec < 1_000_000 && 0 <= s.adj <= MAX_ADJUSTMENT
  }

  /** Reserving `num` ticks moves the last reserved tick by exactly `num - 1`,
      through both carries, and leaves a normalised state. */
  lemma ReserveCountsTicks(s: State, num: int)
    requires WellFormed(s)
    ensures Tick(Reserve(s, num)) == Tick(s) + Count(num) - 1
    ensures WellFormed(Reserve(s, num))
    ensures num > 1 ==> Reserve(s, num).adj < MAX_ADJUSTMENT
    ensures s.last.sec <= Reserve(s, num).last.sec
  {
  }

  /** Every request keeps the state well formed, and `last` with `adjustment`
      names exactly the last tick of the block just reserved. */
  lemma StepKeepsWellFormed(s: State, epoch: nat, r: Request)
    requires WellFormed(s) && IsRequest(r)
    ensures WellFormed(Step(s, r))
    ensures r.num > 1 && Granted(s, epoch, r) != [] ==> Step(s, r).adj < MAX_ADJUSTMENT
    ensures forall b <- Granted(s, epoch, r) :: Tick(Step(s, r)) == b.start + b.len - 1 && b.len > 0
  {
    var tv := Accepted(s, r.polls);
    if tv.Some? {
      ReserveCountsTicks(Advance(s, tv.value), r.num);
    }
  }

  /** The eleventh tick of one microsecond is the first tick of the next one:
      a request collides when it finds the adjustment at its maximum and reads
      a clock that has moved on by exactly one microsecond. */
  predicate Collides(s: State, r: Request) {
    var tv := Accepted(s, r.polls);
    && tv.Some?
    && s.adj == MAX_ADJUSTMENT
    && TickOf(tv.value, 0) == TickOf(s.last, 0) + 10
  }

  predicate CollisionFree(s: State, rs: seq<Request>)
    decreases |rs|
  {
    rs == [] || (!Collides(s, rs[0]) && CollisionFree(Step(s, rs[0]), rs[1..]))
  }

  /** The ticks a request is given: from the first tick of the microsecond that was
      read, or, if that microsecond is the last one used, from the tick after the
      last one reserved; as many as were asked for, at least one; under the next
      sequence exactly if the time went back. */
  lemma GrantIsExact(s: State, epoch: nat, r: Request, tv: TimeVal)
    requires Accepted(s, r.polls) == Some(tv)
    ensures |Granted(s, epoch, r)| == 1
    ensures var b := Granted(s, epoch, r)[0];
            && b.start == (if tv == s.last then Tick(s) + 1 else TickOf(tv, 0))
            && b.len == (if r.num > 1 then r.num else 1)
            && b.clockSeq == (if Before(tv, s.last) then (s.clockSeq + 1) % SEQUENCES else s.clockSeq)
  {
  }

  /** Within an epoch a block never starts before the last reserved tick, and
      it starts on that very tick exactly in the colliding case. */
  lemma StartsAfterLastTick(s: State, epoch: nat, r: Request)
    requires WellFormed(s) && IsRequest(r)
    ensures forall b <- Granted(s, epoch, r) ::
              if GoesBack(s, r) then b.epoch == epoch + 1
              else b.epoch == epoch && b.start >= Tick(s) && (b.start == Tick(s) <==> Collides(s, r))
    ensures Collides(s, r) ==> Granted(s, epoch, r) != [] && !GoesBack(s, r) && Step(s, r).adj < MAX_ADJUSTMENT
  {
    var tv := Accepted(s, r.polls);
    if tv.Some? {
      ReserveCountsTicks(Advance(s, tv.value), r.num);
    }
  }

  // Whole runs

  /** `b` is past tick `tick` of epoch `epoch`. */
  predicate Past(epoch: nat, tick: int, b: Block) {
    epoch < b.epoch || (epoch == b.epoch && tick < b.start)
  }

  predicate Reaches(epoch: nat, tick: int, b: Block) {
    epoch < b.epoch || (epoch == b.epoch && tick <= b.start)
  }

  function LastTick(b: Block): int {
    b.start + b.len - 1
  }

  /** Every state that a run reaches is well formed, and names the last tick and
      the sequence of the last block given out. */
  lemma {:induction false} ReachableStates(s: State, epoch: nat, rs: seq<Request>)
    requires WellFormed(s) && forall r <- rs :: IsRequest(r)
    ensures WellFormed(Final(s, rs))
    ensures var bs := Run(s, epoch, rs);
            if bs == [] then Final(s, rs) == s
            else Tick(Final(s, rs)) == LastTick(bs[|bs| - 1]) && Final(s, rs).clockSeq == bs[|bs| - 1].clockSeq
    decreases |rs|
  {
    if rs != [] {
      StepKeepsWellFormed(s, epoch, rs[0]);
      StepSequence(s, rs[0]);
      ReachableStates(Step(s, rs[0]), NextEpoch(s, epoch, rs[0]), rs[1..]);
    }
  }

  ghost predicate AllReach(epoch: nat, tick: int, bs: seq<Block>) {
    forall i | 0 <= i < |bs| :: Reaches(epoch, tick, bs[i]) && bs[i].len > 0
  }

  /** All blocks but the first `gap` are past the tick. */
  ghost predicate PastAfter(epoch: nat, tick: int, bs: seq<Block>, gap: nat) {
    forall i | gap <= i < |bs| :: Past(epoch, tick, bs[i])
  }

  lemma PastCons(epoch: nat, tick: int, b: Block, bs: seq<Block>, gap: nat)
    requires Reaches(epoch, tick, b) && b.len > 0 && AllReach(b.epoch, LastTick(b), bs)
    requires PastAfter(b.epoch, LastTick(b), bs, gap)
    ensures AllReach(epoch, tick, [b] + bs)
    ensures gap == 0 || Past(epoch, tick, b) ==> PastAfter(epoch, tick, [b] + bs, 1)
    ensures Past(epoch, tick, b) ==> PastAfter(epoch, tick, [b] + bs, 0)
  {
    var all := [b] + bs;
    forall i | 0 < i < |all| ensures Reaches(epoch, tick, all[i]) && all[i].len > 0 {
      assert all[i] == bs[i - 1];
    }
    if gap == 0 || Past(epoch, tick, b) {
      forall i | 0 < i < |all| ensures Past(epoch, tick, all[i]) {
        assert all[i] == bs[i - 1];
      }
    }
  }

  /** Every later block reaches past the state a run starts in; only the first
      one can touch its last tick, and only if the adjustment is at its maximum. */
  lemma {:induction false} RunMovesForward(s: State, epoch: nat, rs: seq<Request>)
    requires WellFormed(s) && forall r <- rs :: IsRequest(r)
    ensures AllReach(epoch, Tick(s), Run(s, epoch, rs))
    ensures PastAfter(epoch, Tick(s), Run(s, epoch, rs), 1)
    ensures s.adj < MAX_ADJUSTMENT || CollisionFree(s, rs) ==> PastAfter(epoch, Tick(s), Run(s, epoch, rs), 0)
    decreases |rs|
  {
    if rs != [] {
      var s', epoch' := Step(s, rs[0]), NextEpoch(s, epoch, rs[0]);
      var rest := Run(s', epoch', rs[1..]);
      StepKeepsWellFormed(s, epoch, rs[0]);
      StartsAfterLastTick(s, epoch, rs[0]);
      RunMovesForward(s', epoch', rs[1..]);
      if Granted(s, epoch, rs[0]) == [] {
        assert s' == s && epoch' == epoch && Run(s, epoch, rs) == [] + rest == rest;
      } else {
        var b := Granted(s, epoch, rs[0])[0];
        assert Tick(s') == LastTick(b) && b.epoch == epoch';
        assert Run(s, epoch, rs) == [b] + rest;
        PastCons(epoch, Tick(s), b, rest, if Past(epoch, Tick(s), b) then 1 else 0);
      }
    }
  }

  /** Every block comes strictly after those more than `gap` places before it. */
  ghost predicate Ordered(bs: seq<Block>, gap: nat) {
    forall i, j | 0 <= i && i + gap < j < |bs| :: Past(bs[i].epoch, LastTick(bs[i]), bs[j])
  }

  /** Every block starts no earlier than the end of the one before it. */
  ghost predicate Chained(bs: seq<Block>) {
    forall i | 0 < i < |bs| :: Reaches(bs[i - 1].epoch, LastTick(bs[i - 1]), bs[i])
  }

  lemma Prepend(b: Block, bs: seq<Block>, gap: nat)
    requires Ordered(bs, gap) && forall k | gap <= k < |bs| :: Past(b.epoch, LastTick(b), bs[k])
    ensures Ordered([b] + bs, gap)
  {
    var all := [b] + bs;
    forall i, j | 0 <= i && i + gap < j < |all|
      ensures Past(all[i].epoch, LastTick(all[i]), all[j])
    {
      if i > 0 {
        assert Past(bs[i - 1].epoch, LastTick(bs[i - 1]), bs[j - 1]);
      }
    }
  }

  /** In every run each block starts where the previous one ended or later, and
      strictly after all the others before it; without collisions, strictly
      after every block before it. */
  lemma {:induction false} BlocksAreOrdered(s: State, epoch: nat, rs: seq<Request>)
    requires WellFormed(s) && forall r <- rs :: IsRequest(r)
    ensures Chained(Run(s, epoch, rs))
    ensures Ordered(Run(s, epoch, rs), 1)
    ensures CollisionFree(s, rs) ==> Ordered(Run(s, epoch, rs), 0)
    decreases |rs|
  {
    if rs != [] {
      var s', epoch' := Step(s, rs[0]), NextEpoch(s, epoch, rs[0]);
      var rest := Run(s', epoch', rs[1..]);
      StepKeepsWellFormed(s, epoch, rs[0]);
      BlocksAreOrdered(s', epoch', rs[1..]);
      RunMovesForward(s', epoch', rs[1..]);
      if Granted(s, epoch, rs[0]) != [] {
        var b := Granted(s, epoch, rs[0])[0];
        assert Tick(s') == LastTick(b) && b.epoch == epoch';
        Prepend(b, rest, 1);
        if CollisionFree(s, rs) {
          Prepend(b, rest, 0);
        }
      }
    }
  }

  /** The sequence of a block is the initial one plus its epoch, modulo 2^14,
      and epochs never outrun the number of backward steps. */
  lemma {:induction false} SequenceFollowsEpoch(s: State, epoch: nat, rs: seq<Request>)
    ensures forall b <- Run(s, epoch, rs) ::
              && epoch <= b.epoch <= epoch + BackwardSteps(s, rs)
              && b.clockSeq == (s.clockSeq + (b.epoch - epoch)) % SEQUENCES
    decreases |rs|
  {
    if rs != [] {
      var s', epoch' := Step(s, rs[0]), NextEpoch(s, epoch, rs[0]);
      SequenceFollowsEpoch(s', epoch', rs[1..]);
      StepSequence(s, rs[0]);
      forall b | b in Run(s', epoch', rs[1..])
        ensures b.clockSeq == (s.clockSeq + (b.epoch - epoch)) % SEQUENCES
      {
        if GoesBack(s, rs[0]) {
          SequenceStep(s.clockSeq, b.epoch - epoch);
        }
      }
    }
  }

  lemma SequenceStep(clockSeq: ClockSeq, n: nat)
    requires n > 0
    ensures ((clockSeq + 1) % SEQUENCES + (n - 1)) % SEQUENCES == (clockSeq + n) % SEQUENCES
  {
  }

  lemma StepSequence(s: State, r: Request)
    ensures Step(s, r).clockSeq == if GoesBack(s, r) then (s.clockSeq + 1) % SEQUENCES else s.clockSeq
  {
  }

  /** The block holds `tick` under sequence `clockSeq`. */
  predicate Holds(b: Block, tick: int, clockSeq: int) {
    b.start <= tick <= LastTick(b) && clockSeq == b.clockSeq
  }

  /** No tick and sequence is held by two of the blocks. */
  ghost predicate AllDisjoint(bs: seq<Block>) {
    forall i, j, tick, clockSeq | 0 <= i < j < |bs| ::
      !(Holds(bs[i], tick, clockSeq) && Holds(bs[j], tick, clockSeq))
  }

  /** The tick a state has already given out, as a block. */
  function Taken(s: State, epoch: nat): Block {
    Block(Tick(s), 1, s.clockSeq, epoch)
  }

  /** Over every run in which the time goes back fewer than 2^14 times, no tick
      is given out twice under one sequence -- the tick the run starts from
      included -- if and only if no request collides. */
  lemma {:induction false} RunIsUniqueIff(s: State, epoch: nat, rs: seq<Request>)
    requires WellFormed(s) && forall r <- rs :: IsRequest(r)
    requires BackwardSteps(s, rs) < SEQUENCES
    ensures AllDisjoint([Taken(s, epoch)] + Run(s, epoch, rs)) <==> CollisionFree(s, rs)
  {
    if CollisionFree(s, rs) {
      BlocksAreOrdered(s, epoch, rs);
      RunMovesForward(s, epoch, rs);
      Prepend(Taken(s, epoch), Run(s, epoch, rs), 0);
      OrderedIsDisjoint(s, epoch, rs);
    } else {
      CollisionIsShared(s, epoch, rs);
    }
  }

  lemma {:induction false} OrderedIsDisjoint(s: State, epoch: nat, rs: seq<Request>)
    requires BackwardSteps(s, rs) < SEQUENCES
    requires Ordered([Taken(s, epoch)] + Run(s, epoch, rs), 0)
    ensures AllDisjoint([Taken(s, epoch)] + Run(s, epoch, rs))
  {
    var bs := [Taken(s, epoch)] + Run(s, epoch, rs);
    SequenceFollowsEpoch(s, epoch, rs);
    forall b <- bs ensures InSequence(s, epoch, b) {
    }
    forall i, j, tick, clockSeq | 0 <= i < j < |bs|
      ensures !(Holds(bs[i], tick, clockSeq) && Holds(bs[j], tick, clockSeq))
    {
      LaterBlockIsApart(s, epoch, bs[i], bs[j], tick, clockSeq);
    }
  }

  /** The block bears the sequence of its epoch, within 2^14 of the first. */
  predicate InSequence(s: State, epoch: nat, b: Block) {
    epoch <= b.epoch < epoch + SEQUENCES && b.clockSeq == (s.clockSeq + (b.epoch - epoch)) % SEQUENCES
  }

  lemma LaterBlockIsApart(s: State, epoch: nat, b: Block, later: Block, tick: int, clockSeq: int)
    requires InSequence(s, epoch, b) && InSequence(s, epoch, later) && Past(b.epoch, LastTick(b), later)
    ensures !(Holds(b, tick, clockSeq) && Holds(later, tick, clockSeq))
  {
    if b.epoch < later.epoch {
      NearEpochsDiffer(s.clockSeq, b.epoch - epoch, later.epoch - epoch);
    }
  }

  /** Fewer than 2^14 steps apart, two epochs have different sequences. */
  lemma NearEpochsDiffer(clockSeq: ClockSeq, x: nat, y: nat)
    requires x < y < x + SEQUENCES
    ensures (clockSeq + x) % SEQUENCES != (clockSeq + y) % SEQUENCES
  {
  }

  /** Widening the first block and putting another one in front keeps an overlap. */
  lemma WidenFirst(front: Block, wide: Block, narrow: Block, bs: seq<Block>)
    requires !AllDisjoint([narrow] + bs)
    requires wide.clockSeq == narrow.clockSeq && wide.start <= narrow.start && LastTick(narrow) <= LastTick(wide)
    ensures !AllDisjoint([front] + ([wide] + bs))
  {
    var old', new' := [narrow] + bs, [front] + ([wide] + bs);
    var i, j, tick, clockSeq :| 0 <= i < j < |old'| && Holds(old'[i], tick, clockSeq) && Holds(old'[j], tick, clockSeq);
    assert Holds(new'[i + 1], tick, clockSeq) && Holds(new'[j + 1], tick, clockSeq);
  }

  /** A colliding request puts the last tick given out into the next block. */
  lemma {:induction false} CollisionIsShared(s: State, epoch: nat, rs: seq<Request>)
    requires WellFormed(s) && forall r <- rs :: IsRequest(r)
    requires !CollisionFree(s, rs)
    ensures !AllDisjoint([Taken(s, epoch)] + Run(s, epoch, rs))
    decreases |rs|
  {
    var s', epoch' := Step(s, rs[0]), NextEpoch(s, epoch, rs[0]);
    var rest := Run(s', epoch', rs[1..]);
    StepKeepsWellFormed(s, epoch, rs[0]);
    StartsAfterLastTick(s, epoch, rs[0]);
    StepSequence(s, rs[0]);
    if Granted(s, epoch, rs[0]) == [] {
      CollisionIsShared(s', epoch', rs[1..]);
      assert s' == s && epoch' == epoch && Run(s, epoch, rs) == rest;
    } else {
      var b := Granted(s, epoch, rs[0])[0];
      var bs := [Taken(s, epoch)] + ([b] + rest);
      if Collides(s, rs[0]) {
        assert Holds(bs[0], Tick(s), s.clockSeq) && Holds(bs[1], Tick(s), s.clockSeq);
      } else {
        CollisionIsShared(s', epoch', rs[1..]);
        WidenFirst(Taken(s, epoch), b, Taken(s', epoch'), rest);
      }
    }
  }

  /** Without collisions the blocks alone are disjoint. */
  lemma {:induction false} BlocksAreDisjoint(s: State, epoch: nat, rs: seq<Request>)
    requires WellFormed(s) && (forall r <- rs :: IsRequest(r))
    requires CollisionFree(s, rs) && BackwardSteps(s, rs) < SEQUENCES
    ensures AllDisjoint(Run(s, epoch, rs))
  {
    RunIsUniqueIff(s, epoch, rs);
    var bs, all := Run(s, epoch, rs), [Taken(s, epoch)] + Run(s, epoch, rs);
    forall i, j, tick, clockSeq | 0 <= i < j < |bs|
      ensures !(Holds(bs[i], tick, clockSeq) && Holds(bs[j], tick, clockSeq))
    {
      assert bs[i] == all[i + 1] && bs[j] == all[j + 1];
    }
  }

  /** From a state whose adjustment is below its maximum, as every fresh one is,
      the blocks alone are disjoint if and only if no request collides. */
  lemma {:induction false} FreshRunIsUniqueIff(s: State, epoch: nat, rs: seq<Request>)
    requires WellFormed(s) && s.adj < MAX_ADJUSTMENT && forall r <- rs :: IsRequest(r)
    requires BackwardSteps(s, rs) < SEQUENCES
    ensures AllDisjoint(Run(s, epoch, rs)) <==> CollisionFree(s, rs)
  {
    RunIsUniqueIff(s, epoch, rs);
    forall b | b in Run(s, epoch, rs) ensures !Holds(b, Tick(s), s.clockSeq) {
      StartIsNotRepeated(s, epoch, rs, b);
    }
    DisjointCons(Taken(s, epoch), Run(s, epoch, rs));
  }

  lemma {:induction false} StartIsNotRepeated(s: State, epoch: nat, rs: seq<Request>, b: Block)
    requires WellFormed(s) && s.adj < MAX_ADJUSTMENT && forall r <- rs :: IsRequest(r)
    requires BackwardSteps(s, rs) < SEQUENCES && b in Run(s, epoch, rs)
    ensures !Holds(b, Tick(s), s.clockSeq)
  {
    RunMovesForward(s, epoch, rs);
    SequenceFollowsEpoch(s, epoch, rs);
    LaterBlockIsApart(s, epoch, Taken(s, epoch), b, Tick(s), s.clockSeq);
  }

  lemma DisjointCons(b: Block, bs: seq<Block>)
    requires b.len == 1 && forall later <- bs :: !Holds(later, b.start, b.clockSeq)
    ensures AllDisjoint([b] + bs) <==> AllDisjoint(bs)
  {
    var all := [b] + bs;
    if AllDisjoint(all) {
      forall i, j, tick, clockSeq | 0 <= i < j < |bs|
        ensures !(Holds(bs[i], tick, clockSeq) && Holds(bs[j], tick, clockSeq))
      {
        assert bs[i] == all[i + 1] && bs[j] == all[j + 1];
      }
    }
  }

  /** Even with collisions, no tick is given out three times under one sequence. */
  lemma {:induction false} NoTickThreeTimes(s: State, epoch: nat, rs: seq<Request>, i: nat, j: nat, k: nat, tick: int,
                                            clockSeq: int)
    requires WellFormed(s) && forall r <- rs :: IsRequest(r)
    requires BackwardSteps(s, rs) < SEQUENCES
    requires i < j < k < |Run(s, epoch, rs)|
    ensures var bs := Run(s, epoch, rs);
            !(Holds(bs[i], tick, clockSeq) && Holds(bs[j], tick, clockSeq) && Holds(bs[k], tick, clockSeq))
  {
    var bs := Run(s, epoch, rs);
    BlocksAreOrdered(s, epoch, rs);
    SequenceFollowsEpoch(s, epoch, rs);
    LaterBlockIsApart(s, epoch, bs[i], bs[k], tick, clockSeq);
  }

  /** One microsecond later. */
  function Later(tv: TimeVal): TimeVal {
    if tv.usec == 999_999 then TimeVal(tv.sec + 1, 0) else TimeVal(tv.sec, tv.usec + 1)
  }

  /** Some reading makes the next request collide. */
  predicate CanCollide(s: State) {
    s.adj == MAX_ADJUSTMENT && IsReading(Later(s.last))
  }

  lemma CollidesOnlyLater(s: State, r: Request)
    requires WellFormed(s) && IsRequest(r) && Collides(s, r)
    ensures CanCollide(s) && Accepted(s, r.polls) == Some(Later(s.last))
  {
    var tv := Accepted(s, r.polls).value;
    assert IsReading(tv) && TickOf(tv, 0) == TickOf(Later(s.last), 0);
  }

  /** Requests for more than one tick never leave the adjustment at its maximum,
      so a run of them has no collisions but possibly on its first request. */
  lemma {:induction false} BulkNeverCollides(s: State, rs: seq<Request>)
    requires WellFormed(s) && !CanCollide(s)
    requires forall r <- rs :: IsRequest(r) && r.num > 1
    ensures CollisionFree(s, rs)
    decreases |rs|
  {
    if rs != [] {
      StepKeepsWellFormed(s, 0, rs[0]);
      if Collides(s, rs[0]) {
        CollidesOnlyLater(s, rs[0]);
      }
      if Granted(s, 0, rs[0]) == [] {
        assert Step(s, rs[0]) == s;
      }
      BulkNeverCollides(Step(s, rs[0]), rs[1..]);
    }
  }

  /** Every run of bulk requests gives out each tick once per sequence. */
  lemma {:induction false} BulkRunIsUnique(s: State, epoch: nat, rs: seq<Request>)
    requires WellFormed(s) && !CanCollide(s)
    requires forall r <- rs :: IsRequest(r) && r.num > 1
    requires BackwardSteps(s, rs) < SEQUENCES
    ensures AllDisjoint([Taken(s, epoch)] + Run(s, epoch, rs))
  {
    BulkNeverCollides(s, rs);
    RunIsUniqueIff(s, epoch, rs);
  }

  // Runs of any length

  /** A reading that was accepted, and the number of ticks given for it. */
  datatype Serve = Serve(tv: TimeVal, count: nat)

  /** The readings that the blocks of a run go back to, in order. */
  function Serves(s: State, rs: seq<Request>): seq<Serve>
    decreases |rs|
  {
    if rs == [] then []
    else ServesOne(s, rs[0]) + Serves(Step(s, rs[0]), rs[1..])
  }

  function ServesOne(s: State, r: Request): seq<Serve> {
    match Accepted(s, r.polls)
    case None => []
    case Some(tv) => [Serve(tv, Count(r.num))]
  }

  /** The block starts within eleven ticks of the reading it goes back to. */
  predicate StartsAt(b: Block, v: Serve) {
    TickOf(v.tv, 0) <= b.start <= TickOf(v.tv, MAX_ADJUSTMENT) && b.len == v.count
  }

  ghost predicate StartAt(bs: seq<Block>, vs: seq<Serve>) {
    |bs| == |vs| && forall i | 0 <= i < |bs| :: StartsAt(bs[i], vs[i])
  }

  lemma {:induction false} BlocksStartAtReadings(s: State, epoch: nat, rs: seq<Request>)
    requires WellFormed(s) && forall r <- rs :: IsRequest(r)
    ensures StartAt(Run(s, epoch, rs), Serves(s, rs))
    decreases |rs|
  {
    if rs != [] {
      var s', epoch' := Step(s, rs[0]), NextEpoch(s, epoch, rs[0]);
      StepKeepsWellFormed(s, epoch, rs[0]);
      BlocksStartAtReadings(s', epoch', rs[1..]);
      var tv := Accepted(s, rs[0].polls);
      if tv.Some? {
        GrantIsExact(s, epoch, rs[0], tv.value);
        StartAtCons(Granted(s, epoch, rs[0])[0], Serve(tv.value, Count(rs[0].num)),
                    Run(s', epoch', rs[1..]), Serves(s', rs[1..]));
      }
    }
  }

  lemma StartAtCons(b: Block, v: Serve, bs: seq<Block>, vs: seq<Serve>)
    requires StartsAt(b, v) && StartAt(bs, vs)
    ensures StartAt([b] + bs, [v] + vs)
  {
  }

  /** Epochs grow by at most one from block to block, so blocks 2^14 epochs apart
      are at least 2^14 blocks apart. */
  ghost predicate EpochsCreep(epoch: nat, bs: seq<Block>) {
    && (forall i | 0 <= i < |bs| :: epoch <= bs[i].epoch <= epoch + i + 1)
    && (forall i, j | 0 <= i <= j < |bs| :: bs[i].epoch <= bs[j].epoch <= bs[i].epoch + (j - i))
  }

  lemma {:induction false} EpochsCreepAlong(s: State, epoch: nat, rs: seq<Request>)
    ensures EpochsCreep(epoch, Run(s, epoch, rs))
    decreases |rs|
  {
    if rs != [] {
      var s', epoch' := Step(s, rs[0]), NextEpoch(s, epoch, rs[0]);
      EpochsCreepAlong(s', epoch', rs[1..]);
      if Granted(s, epoch, rs[0]) != [] {
        EpochsCreepCons(epoch, Granted(s, epoch, rs[0])[0], Run(s', epoch', rs[1..]));
      }
    }
  }

  lemma EpochsCreepCons(epoch: nat, b: Block, bs: seq<Block>)
    requires epoch <= b.epoch <= epoch + 1 && EpochsCreep(b.epoch, bs)
    ensures EpochsCreep(epoch, [b] + bs)
  {
    var all := [b] + bs;
    forall i, j | 0 <= i <= j < |all| ensures all[i].epoch <= all[j].epoch <= all[i].epoch + (j - i) {
      if i > 0 {
        assert all[i] == bs[i - 1] && all[j] == bs[j - 1];
      } else if j > 0 {
        assert all[j] == bs[j - 1];
      }
    }
    forall i | 0 <= i < |all| ensures epoch <= all[i].epoch <= epoch + i + 1 {
      if i > 0 {
        assert all[i] == bs[i - 1];
      }
    }
  }

  /** A clock that never goes back and that, from any reading to the one 2^14 blocks
      later, gets past all ticks given for the earlier one. */
  ghost predicate KeepsUp(vs: seq<Serve>) {
    && (forall i, j | 0 <= i <= j < |vs| :: TickOf(vs[i].tv, 0) <= TickOf(vs[j].tv, 0))
    && (forall i | 0 <= i < |vs| - SEQUENCES :: Passes(vs[i], vs[i + SEQUENCES]))
  }

  predicate Passes(v: Serve, later: Serve) {
    TickOf(v.tv, MAX_ADJUSTMENT) + v.count <= TickOf(later.tv, 0)
  }

  /** On such a clock the length of a run does not matter, nor how often a request
      falls behind the ticks reserved before it: without collisions, no tick is
      ever given out twice under one sequence. */
  lemma {:induction false} SteadyRunIsUnique(s: State, epoch: nat, rs: seq<Request>)
    requires WellFormed(s) && (forall r <- rs :: IsRequest(r)) && CollisionFree(s, rs)
    requires KeepsUp(Serves(s, rs))
    ensures AllDisjoint(Run(s, epoch, rs))
  {
    var bs, vs := Run(s, epoch, rs), Serves(s, rs);
    BlocksAreOrdered(s, epoch, rs);
    SequenceFollowsEpoch(s, epoch, rs);
    BlocksStartAtReadings(s, epoch, rs);
    EpochsCreepAlong(s, epoch, rs);
    forall i, j, tick, clockSeq | 0 <= i < j < |bs|
      ensures !(Holds(bs[i], tick, clockSeq) && Holds(bs[j], tick, clockSeq))
    {
      assert bs[i] in bs && bs[j] in bs && Past(bs[i].epoch, LastTick(bs[i]), bs[j]);
      if bs[i].epoch < bs[j].epoch < bs[i].epoch + SEQUENCES {
        NearEpochsDiffer(s.clockSeq, bs[i].epoch - epoch, bs[j].epoch - epoch);
      } else if bs[i].epoch < bs[j].epoch {
        assert i + SEQUENCES <= j && StartsAt(bs[i], vs[i]) && StartsAt(bs[j], vs[j]);
        assert Passes(vs[i], vs[i + SEQUENCES]);
      }
    }
  }

  // Both bounds are needed

  /** Single requests against a stalled clock reach the eleventh tick, so for
      every state there is a run of them with a collision. */
  lemma {:induction false} SingleRequestsCanCollide(s: State, next: TimeVal) returns (rs: seq<Request>)
    requires WellFormed(s) && IsReading(s.last) && IsReading(next)
    requires TickOf(next, 0) == TickOf(s.last, 0) + 10
    ensures forall r <- rs :: IsRequest(r) && r.num == 1
    ensures BackwardSteps(s, rs) == 0 && !CollisionFree(s, rs)
    decreases MAX_ADJUSTMENT - s.adj
  {
    var poll := if s.adj == MAX_ADJUSTMENT then next else s.last;
    var r := Request([poll], 1);
    assert Accepted(s, r.polls) == Some(poll);
    if s.adj == MAX_ADJUSTMENT {
      rs := [r];
    } else {
      assert Step(s, r) == s.(adj := s.adj + 1);
      rs := SingleRequestsCanCollide(Step(s, r), next);
      rs := [r] + rs;
    }
  }

  /** `n` bulk requests, each reading the clock one second earlier than the
      last, and then one that reads `top`. */
  function Plunge(sec: int, n: nat, top: TimeVal): seq<Request>
    decreases n
  {
    if n == 0 then [Request([top], 1000)] else [Dive(sec)] + Plunge(sec - 1, n - 1, top)
  }

  function Dive(sec: int): Request {
    Request([TimeVal(sec - 1, 0)], 1000)
  }

  lemma DiveStep(s: State, s': State)
    requires WellFormed(s) && s' == State(TimeVal(s.last.sec - 1, 99), 9, Bumped(s.clockSeq))
    ensures Step(s, Dive(s.last.sec)) == s'
    ensures GoesBack(s, Dive(s.last.sec))
  {
    assert Accepted(s, Dive(s.last.sec).polls) == Some(TimeVal(s.last.sec - 1, 0));
  }

  function Bumped(clockSeq: ClockSeq): ClockSeq {
    if clockSeq == SEQUENCES - 1 then 0 else clockSeq + 1
  }

  lemma ReturnStep(s: State, epoch: nat, top: TimeVal)
    requires s.last.sec < top.sec
    ensures var r := Request([top], 1000);
            Granted(s, epoch, r) == [Block(TickOf(top, 0), 1000, s.clockSeq, epoch)] && !GoesBack(s, r)
  {
    assert Accepted(s, Request([top], 1000).polls) == Some(top);
  }

  lemma {:induction false} RunCons(s: State, epoch: nat, r: Request, rs: seq<Request>)
    ensures Run(s, epoch, [r] + rs) == Granted(s, epoch, r) + Run(Step(s, r), NextEpoch(s, epoch, r), rs)
    ensures BackwardSteps(s, [r] + rs) == (if GoesBack(s, r) then 1 else 0) + BackwardSteps(Step(s, r), rs)
  {
    assert ([r] + rs)[1..] == rs;
  }

  /** Two single requests that read the same later time: no collision, no step back. */
  lemma {:induction false} SameReadTwice(s: State, r: Request, tv: TimeVal)
    requires Before(s.last, tv) && r == Request([tv], 1) && !Collides(s, r)
    ensures Accepted(s, r.polls) == Some(tv) && Step(s, r) == State(tv, 0, s.clockSeq)
    ensures CollisionFree(s, [r, r]) && BackwardSteps(s, [r, r]) == 0
  {
    var s1 := State(tv, 0, s.clockSeq);
    assert Accepted(s, r.polls) == Some(tv) && Accepted(s1, r.polls) == Some(tv);
    RunCons(s, 0, r, [r]);
    RunCons(s1, 0, r, []);
    assert [r] + [] == [r] && [r] + [r] == [r, r];
    assert [r, r][1..] == [r] && [r][1..] == [];
    assert CollisionFree(s1, [r]);
  }

  /** A plunge of `n` steps back and one forward ends in a block at `top` under
      the sequence `n` further on, `laps` wrap-arounds later. */
  lemma {:induction false} PlungeEndsAtTop(s: State, epoch: nat, n: nat, top: TimeVal, b: Block, laps: nat)
    requires WellFormed(s) && n <= s.last.sec && s.last.sec < top.sec + n
    requires b == Block(TickOf(top, 0), 1000, b.clockSeq, epoch + n)
    requires s.clockSeq + n == b.clockSeq + laps * SEQUENCES
    ensures BackwardSteps(s, Plunge(s.last.sec, n, top)) == n
    ensures b in Run(s, epoch, Plunge(s.last.sec, n, top))
    decreases n
  {
    if n == 0 {
      ReturnStep(s, epoch, top);
      RunCons(s, epoch, Request([top], 1000), []);
    } else {
      var s' := State(TimeVal(s.last.sec - 1, 99), 9, Bumped(s.clockSeq));
      DiveStep(s, s');
      PlungeEndsAtTop(s', epoch + 1, n - 1, top, b, if s'.clockSeq == 0 then laps - 1 else laps);
      RunCons(s, epoch, Dive(s.last.sec), Plunge(s.last.sec - 1, n - 1, top));
    }
  }

  lemma {:induction false} PlungeIsBulk(sec: int, n: nat, top: TimeVal)
    requires IsReading(top) && n <= sec
    ensures forall r <- Plunge(sec, n, top) :: IsRequest(r) && r.num == 1000
    decreases n
  {
    if n > 0 {
      PlungeIsBulk(sec - 1, n - 1, top);
    }
  }

  /** After 2^14 backward steps the sequence is the old one again: for every number
      of backward steps from 2^14 on there is a run of bulk requests that repeats
      a tick. */
  lemma {:induction false} SequenceBoundIsTight(s: State, epoch: nat, n: nat) returns (rs: seq<Request>)
    requires WellFormed(s) && SEQUENCES <= n
    ensures forall r <- rs :: IsRequest(r) && r.num > 1
    ensures BackwardSteps(s, rs) == n
    ensures !AllDisjoint([Taken(s, epoch)] + Run(s, epoch, rs))
  {
    var r := Climb(s, n);
    var s', b := ClimbStep(s, epoch, n, r);
    rs := DeepDive(s', epoch, n);
    RunCons(s, epoch, r, rs);
    WidenFirst(Taken(s, epoch), b, Taken(s', epoch), Run(s', epoch, rs));
    rs := [r] + rs;
  }

  /** A bulk request that reads a time late enough for `n` seconds back. */
  function Climb(s: State, n: nat): Request {
    Request([TimeVal((if s.last.sec < n then n else s.last.sec) + 1, 0)], 1000)
  }

  lemma ClimbStep(s: State, epoch: nat, n: nat, r: Request) returns (s': State, b: Block)
    requires WellFormed(s) && r == Climb(s, n)
    ensures Step(s, r) == s' && WellFormed(s') && n <= s'.last.sec && s'.adj < MAX_ADJUSTMENT
    ensures Granted(s, epoch, r) == [b] && !GoesBack(s, r)
    ensures b.clockSeq == s'.clockSeq && b.start <= Tick(s') == LastTick(b)
  {
    var tv := r.polls[0];
    assert Accepted(s, r.polls) == Some(tv);
    s', b := State(TimeVal(tv.sec, 99), 9, s.clockSeq), Block(TickOf(tv, 0), 1000, s.clockSeq, epoch);
  }

  lemma {:induction false} DeepDive(s: State, epoch: nat, n: nat) returns (rs: seq<Request>)
    requires WellFormed(s) && SEQUENCES <= n <= s.last.sec
    ensures forall r <- rs :: IsRequest(r) && r.num > 1
    ensures BackwardSteps(s, rs) == n
    ensures !AllDisjoint([Taken(s, epoch)] + Run(s, epoch, rs))
    decreases n
  {
    if n == SEQUENCES {
      rs := FullTurn(s, epoch, n);
    } else {
      var s' := State(TimeVal(s.last.sec - 1, 99), 9, Bumped(s.clockSeq));
      DiveStep(s, s');
      rs := DeepDive(s', epoch + 1, n - 1);
      RunCons(s, epoch, Dive(s.last.sec), rs);
      DiveGrant(s, epoch, s');
      WidenFirst(Taken(s, epoch), Granted(s, epoch, Dive(s.last.sec))[0], Taken(s', epoch + 1), Run(s', epoch + 1, rs));
      rs := [Dive(s.last.sec)] + rs;
    }
  }

  lemma {:induction false} FullTurn(s: State, epoch: nat, n: nat) returns (rs: seq<Request>)
    requires WellFormed(s) && n == SEQUENCES <= s.last.sec
    ensures forall r <- rs :: IsRequest(r) && r.num > 1
    ensures BackwardSteps(s, rs) == n
    ensures !AllDisjoint([Taken(s, epoch)] + Run(s, epoch, rs))
  {
    rs := Plunge(s.last.sec, n, s.last);
    var b := Block(TickOf(s.last, 0), 1000, s.clockSeq, epoch + n);
    PlungeIsBulk(s.last.sec, n, s.last);
    PlungeEndsAtTop(s, epoch, n, s.last, b, 1);
    SharesTick(Taken(s, epoch), b, Run(s, epoch, rs), Tick(s));
  }

  /** A dive gives out a block that ends with the last tick of the state it leaves. */
  lemma DiveGrant(s: State, epoch: nat, s': State)
    requires WellFormed(s) && s' == State(TimeVal(s.last.sec - 1, 99), 9, Bumped(s.clockSeq))
    ensures var bs := Granted(s, epoch, Dive(s.last.sec));
            |bs| == 1 && bs[0].clockSeq == s'.clockSeq && bs[0].start <= Tick(s') == LastTick(bs[0])
  {
    GrantIsExact(s, epoch, Dive(s.last.sec), TimeVal(s.last.sec - 1, 0));
  }

  /** Every run of bulk requests in which the time goes back `n` times gives out
      each tick at most once per sequence. */
  ghost predicate BulkRunsAreUnique(s: State, epoch: nat, n: nat) {
    forall rs | IsBulkRun(s, rs, n) :: AllDisjoint([Taken(s, epoch)] + Run(s, epoch, rs))
  }

  ghost predicate IsBulkRun(s: State, rs: seq<Request>, n: nat) {
    (forall r <- rs :: IsRequest(r) && r.num > 1) && BackwardSteps(s, rs) == n
  }

  /** There are runs of bulk requests with any number of backward steps. */
  lemma {:induction false} Descent(s: State, n: nat) returns (rs: seq<Request>)
    requires WellFormed(s)
    ensures forall r <- rs :: IsRequest(r) && r.num > 1
    ensures BackwardSteps(s, rs) == n
  {
    var r := Climb(s, n);
    var s', b := ClimbStep(s, 0, n, r);
    rs := Plunge(s'.last.sec, n, TimeVal(s'.last.sec + 1, 0));
    PlungeIsBulk(s'.last.sec, n, TimeVal(s'.last.sec + 1, 0));
    PlungeStepsBack(s', n, TimeVal(s'.last.sec + 1, 0));
    RunCons(s, 0, r, rs);
    rs := [r] + rs;
  }

  lemma {:induction false} PlungeStepsBack(s: State, n: nat, top: TimeVal)
    requires WellFormed(s) && n <= s.last.sec && s.last.sec < top.sec
    ensures BackwardSteps(s, Plunge(s.last.sec, n, top)) == n
    decreases n
  {
    if n == 0 {
      ReturnStep(s, 0, top);
      RunCons(s, 0, Request([top], 1000), []);
    } else {
      var s' := State(TimeVal(s.last.sec - 1, 99), 9, Bumped(s.clockSeq));
      DiveStep(s, s');
      PlungeStepsBack(s', n - 1, top);
      RunCons(s, 0, Dive(s.last.sec), Plunge(s.last.sec - 1, n - 1, top));
    }
  }

  /** If some reading makes the next request collide, some run of bulk requests with
      any number of backward steps repeats a tick. */
  lemma {:induction false} CollidingBulkRun(s: State, epoch: nat, n: nat) returns (rs: seq<Request>)
    requires WellFormed(s) && CanCollide(s)
    ensures IsBulkRun(s, rs, n) && !AllDisjoint([Taken(s, epoch)] + Run(s, epoch, rs))
  {
    var r := Request([Later(s.last)], 1000);
    assert Accepted(s, r.polls) == Some(Later(s.last)) && Collides(s, r) && !GoesBack(s, r);
    StepKeepsWellFormed(s, epoch, r);
    rs := Descent(Step(s, r), n);
    RunCons(s, epoch, r, rs);
    rs := [r] + rs;
    CollisionIsShared(s, epoch, rs);
  }

  /** The bounds are exact: all runs of bulk requests with `n` backward steps are unique
      if and only if `n` is below 2^14 and no reading makes the first one collide. */
  lemma {:induction false} SequenceBoundIsExact(s: State, epoch: nat, n: nat)
    requires WellFormed(s)
    ensures BulkRunsAreUnique(s, epoch, n) <==> n < SEQUENCES && !CanCollide(s)
  {
    if CanCollide(s) {
      var rs := CollidingBulkRun(s, epoch, n);
    } else if n < SEQUENCES {
      forall rs | IsBulkRun(s, rs, n) ensures AllDisjoint([Taken(s, epoch)] + Run(s, epoch, rs)) {
        BulkRunIsUnique(s, epoch, rs);
      }
    } else {
      var rs := SequenceBoundIsTight(s, epoch, n);
      assert IsBulkRun(s, rs, n);
    }
  }

  lemma SharesTick(front: Block, b: Block, bs: seq<Block>, tick: int)
    requires b in bs && Holds(front, tick, front.clockSeq) && Holds(b, tick, front.clockSeq)
    ensures !AllDisjoint([front] + bs)
  {
    var k :| 0 <= k < |bs| && bs[k] == b;
    var all := [front] + bs;
    assert Holds(all[0], tick, front.clockSeq) && Holds(all[k + 1], tick, front.clockSeq);
  }
}
