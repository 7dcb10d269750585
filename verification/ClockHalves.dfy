/** Calls of get_clock that overlap. A call takes the lock and reads the state file
    first, and writes the file and gives up the lock last. The lock is a record lock:
    it belongs to the process, so it keeps other processes out but not the other
    threads of its own, and whichever thread of the process finishes first gives
    it up for all. */
module ClockHalves {
  import opened Bytes
  import opened Options
  import opened UuidTime
  import opened Clock
  import opened ClockFile

  /** The two halves of a call. */
  datatype Half = Begin(thread: nat, call: Call) | End(thread: nat)

  /** A call that has read the state file and not written it yet. */
  datatype Pending = Pending(state: State, call: Call)

  /** The state file, the statics of the threads, the calls under way, and the
      process that holds the lock. */
  datatype Host = Host(text: string, own: map<nat, State>, pending: map<nat, Pending>, lock: Option<nat>)

  /** Which process a thread belongs to. */
  type Processes = nat -> nat

  predicate Enabled(process: Processes, h: Host, half: Half) {
    match half
    case Begin(t, _) => t !in h.pending && (h.lock.Some? ==> h.lock.value == process(t))
    case End(t) => t in h.pending && Accepted(h.pending[t].state, h.pending[t].call.request.polls).Some?
  }

  function StepHalf(process: Processes, h: Host, half: Half): Host
    requires Enabled(process, h, half)
  {
    match half
    case Begin(t, c) =>
      var s := Loaded(h.text, h.own, t, c);
      h.(pending := h.pending[t := Pending(s, c)], lock := Some(process(t)))
    case End(t) =>
      var p := h.pending[t];
      Host(TextAfter(h.text, p.state, p.call), h.own[t := Step(p.state, p.call.request)], h.pending - {t}, None)
  }

  predicate AllEnabled(process: Processes, h: Host, halves: seq<Half>)
    decreases |halves|
  {
    || halves == []
    || (Enabled(process, h, halves[0]) && AllEnabled(process, StepHalf(process, h, halves[0]), halves[1..]))
  }

  /** The calls that are completed, in the order in which they are. */
  function Completed(process: Processes, h: Host, halves: seq<Half>): seq<Turn>
    requires AllEnabled(process, h, halves)
    decreases |halves|
  {
    if halves == [] then []
    else
      (match halves[0] case Begin(_, _) => [] case End(t) => [Turn(t, h.pending[t].call)])
      + Completed(process, StepHalf(process, h, halves[0]), halves[1..])
  }

  /** The ticks that they reserve. */
  function Blocks(process: Processes, h: Host, epoch: nat, halves: seq<Half>): seq<Block>
    requires AllEnabled(process, h, halves)
    decreases |halves|
  {
    if halves == [] then []
    else
      var h' := StepHalf(process, h, halves[0]);
      match halves[0]
      case Begin(_, _) => Blocks(process, h', epoch, halves[1..])
      case End(t) =>
        var s, r := h.pending[t].state, h.pending[t].call.request;
        Granted(s, epoch, r) + Blocks(process, h', NextEpoch(s, epoch, r), halves[1..])
  }

  // Where the lock is enough

  ghost predicate OneThreadEach(process: Processes, threads: set<nat>) {
    forall t, u | t in threads && u in threads && process(t) == process(u) :: t == u
  }

  ghost predicate Within(halves: seq<Half>, threads: set<nat>) {
    forall i | 0 <= i < |halves| :: halves[i].thread in threads && (halves[i].Begin? ==> IsCall(halves[i].call))
  }

  predicate IsIdle(h: Host) {
    h.pending == map[] && h.lock.None?
  }

  /** If no two threads share a process, a call that has begun is the next to end. */
  lemma NextEnds(process: Processes, h: Host, halves: seq<Half>, threads: set<nat>)
    requires IsIdle(h) && AllEnabled(process, h, halves) && Within(halves, threads) && OneThreadEach(process, threads)
    requires |halves| >= 2
    ensures halves[0].Begin? && halves[1] == End(halves[0].thread)
  {
    var h' := StepHalf(process, h, halves[0]);
    assert Enabled(process, h', halves[1..][0]);
    assert halves[0].thread in threads && halves[1].thread in threads;
  }

  lemma {:induction false} BeginCall(process: Processes, h: Host, epoch: nat, halves: seq<Half>, p: Pending)
    returns (h1: Host)
    requires IsIdle(h) && halves != [] && halves[0].Begin? && AllEnabled(process, h, halves)
    requires p == Pending(Loaded(h.text, h.own, halves[0].thread, halves[0].call), halves[0].call)
    ensures h1.text == h.text && h1.own == h.own && h1.pending == map[halves[0].thread := p]
    ensures AllEnabled(process, h1, halves[1..]) && Completed(process, h, halves) == Completed(process, h1, halves[1..])
    ensures Blocks(process, h, epoch, halves) == Blocks(process, h1, epoch, halves[1..])
  {
    h1 := StepHalf(process, h, halves[0]);
  }

  lemma {:induction false} EndCall(process: Processes, h: Host, epoch: nat, halves: seq<Half>, p: Pending)
    returns (h2: Host)
    requires halves != [] && halves[0].End? && h.pending == map[halves[0].thread := p] && AllEnabled(process, h, halves)
    ensures IsIdle(h2) && h2.text == TextAfter(h.text, p.state, p.call)
    ensures h2.own == h.own[halves[0].thread := Step(p.state, p.call.request)] && AllEnabled(process, h2, halves[1..])
    ensures Completed(process, h, halves) == [Turn(halves[0].thread, p.call)] + Completed(process, h2, halves[1..])
    ensures Blocks(process, h, epoch, halves) ==
            Granted(p.state, epoch, p.call.request)
            + Blocks(process, h2, NextEpoch(p.state, epoch, p.call.request), halves[1..])
  {
    h2 := StepHalf(process, h, halves[0]);
  }

  /** A call whose halves follow each other is one turn. */
  lemma {:induction false} WholeCall(process: Processes, h: Host, epoch: nat, halves: seq<Half>, c: Call, s: State)
    returns (h2: Host)
    requires IsIdle(h) && AllEnabled(process, h, halves) && |halves| >= 2
    requires halves[0].Begin? && halves[0].call == c && halves[1] == End(halves[0].thread)
    requires s == Loaded(h.text, h.own, halves[0].thread, c)
    ensures IsIdle(h2) && h2.text == TextAfter(h.text, s, c) && h2.own == h.own[halves[0].thread := Step(s, c.request)]
    ensures AllEnabled(process, h2, halves[2..])
    ensures Completed(process, h, halves) == [Turn(halves[0].thread, c)] + Completed(process, h2, halves[2..])
    ensures Blocks(process, h, epoch, halves) ==
            Granted(s, epoch, c.request) + Blocks(process, h2, NextEpoch(s, epoch, c.request), halves[2..])
  {
    var h1 := BeginCall(process, h, epoch, halves, Pending(s, c));
    assert halves[1..][0] == halves[1] && halves[1..][1..] == halves[2..];
    h2 := EndCall(process, h1, epoch, halves[1..], Pending(s, c));
  }

  lemma WithinTail(halves: seq<Half>, threads: set<nat>, n: nat)
    requires n <= |halves| && Within(halves, threads)
    ensures Within(halves[n..], threads)
  {
    forall i | 0 <= i < |halves| - n
      ensures halves[n..][i].thread in threads && (halves[n..][i].Begin? ==> IsCall(halves[n..][i].call))
    {
      assert halves[n..][i] == halves[n + i];
    }
  }

  /** If no two threads share a process, calls take turns, whatever the schedule. */
  lemma {:induction false} LockedCallsTakeTurns(process: Processes, h: Host, epoch: nat, halves: seq<Half>,
                                                threads: set<nat>)
    requires IsIdle(h) && AllEnabled(process, h, halves) && Within(halves, threads) && OneThreadEach(process, threads)
    ensures Blocks(process, h, epoch, halves) == SharedRun(h.text, h.own, epoch, Completed(process, h, halves))
    ensures forall turn <- Completed(process, h, halves) :: IsCall(turn.call)
    decreases |halves|
  {
    if |halves| < 2 {
      NothingCompleted(process, h, epoch, halves);
    } else {
      NextEnds(process, h, halves, threads);
      var t, c, rest := halves[0].thread, halves[0].call, halves[2..];
      var s := Loaded(h.text, h.own, t, c);
      var h2 := WholeCall(process, h, epoch, halves, c, s);
      assert IsCall(c);
      WithinTail(halves, threads, 2);
      LockedCallsTakeTurns(process, h2, NextEpoch(s, epoch, c.request), rest, threads);
      TurnCons(h.text, h.own, epoch, Turn(t, c), Completed(process, h2, rest), s);
    }
  }

  lemma {:induction false} NothingCompleted(process: Processes, h: Host, epoch: nat, halves: seq<Half>)
    requires IsIdle(h) && AllEnabled(process, h, halves) && |halves| < 2
    ensures Blocks(process, h, epoch, halves) == [] && Completed(process, h, halves) == []
  {
    if halves != [] {
      assert Enabled(process, h, halves[0]) && halves[0].Begin? && halves[1..] == [];
    }
  }

  // Where it is not

  /** Two calls that overlap. */
  predicate Overlaps(halves: seq<Half>) {
    && |halves| == 4 && halves[0].Begin? && halves[1].Begin? && halves[0].thread != halves[1].thread
    && halves[2] == End(halves[0].thread) && halves[3] == End(halves[1].thread)
  }

  /** Two threads of one process whose calls overlap both start from the same state: if
      they read the same time they reserve the same tick under the same sequence. */
  lemma {:induction false} OverlappedCallsRepeat(process: Processes, h: Host, halves: seq<Half>, s: State, tv: TimeVal)
    requires Overlaps(halves) && process(halves[0].thread) == process(halves[1].thread)
    requires IsIdle(h) && HasState(h.text, s)
    requires Accepted(s, halves[0].call.request.polls) == Accepted(s, halves[1].call.request.polls) == Some(tv)
    ensures AllEnabled(process, h, halves)
    ensures Completed(process, h, halves) ==
            [Turn(halves[0].thread, halves[0].call), Turn(halves[1].thread, halves[1].call)]
    ensures Blocks(process, h, 0, halves) ==
            Granted(s, 0, halves[0].call.request)
            + Granted(s, NextEpoch(s, 0, halves[0].call.request), halves[1].call.request)
    ensures !AllDisjoint(Blocks(process, h, 0, halves))
  {
    var r, r' := halves[0].call.request, halves[1].call.request;
    TraceOverlap(process, h, halves, Pending(s, halves[0].call), Pending(s, halves[1].call));
    SameStart(s, NextEpoch(s, 0, r), r, r', tv);
  }

  lemma {:induction false} TraceOverlap(process: Processes, h: Host, halves: seq<Half>, p: Pending, q: Pending)
    requires Overlaps(halves) && process(halves[0].thread) == process(halves[1].thread)
    requires IsIdle(h) && HasState(h.text, p.state) && HasState(h.text, q.state)
    requires p.call == halves[0].call && q.call == halves[1].call
    requires Accepted(p.state, p.call.request.polls).Some? && Accepted(q.state, q.call.request.polls).Some?
    ensures AllEnabled(process, h, halves)
    ensures Completed(process, h, halves) == [Turn(halves[0].thread, p.call), Turn(halves[1].thread, q.call)]
    ensures Blocks(process, h, 0, halves) ==
            Granted(p.state, 0, p.call.request)
            + Granted(q.state, NextEpoch(p.state, 0, p.call.request), q.call.request)
  {
    var h1 := Loads(process, h, halves, p);
    assert halves[1..][0] == halves[1];
    var h2 := Loads(process, h1, halves[1..], q);
    assert halves[1..][1..] == halves[2..] && halves[2..][0] == halves[2] && halves[2..][1] == halves[3];
    BothEnd(process, h2, halves[2..], p, q);
  }

  /** A call on a file that holds a state begins with that state. */
  lemma {:induction false} Loads(process: Processes, h: Host, halves: seq<Half>, p: Pending) returns (h1: Host)
    requires halves != [] && halves[0].Begin? && Enabled(process, h, halves[0])
    requires HasState(h.text, p.state) && halves[0].call == p.call
    ensures h1 == h.(pending := h.pending[halves[0].thread := p], lock := Some(process(halves[0].thread)))
    ensures AllEnabled(process, h1, halves[1..]) ==>
              && AllEnabled(process, h, halves) && Completed(process, h, halves) == Completed(process, h1, halves[1..])
              && Blocks(process, h, 0, halves) == Blocks(process, h1, 0, halves[1..])
  {
    h1 := StepHalf(process, h, halves[0]);
  }

  lemma {:induction false} BothEnd(process: Processes, h: Host, halves: seq<Half>, p: Pending, q: Pending)
    requires |halves| == 2 && halves[0].End? && halves[1].End? && halves[0].thread != halves[1].thread
    requires halves[0].thread in h.pending && h.pending[halves[0].thread] == p
    requires halves[1].thread in h.pending && h.pending[halves[1].thread] == q
    requires Accepted(p.state, p.call.request.polls).Some? && Accepted(q.state, q.call.request.polls).Some?
    ensures AllEnabled(process, h, halves)
    ensures Completed(process, h, halves) == [Turn(halves[0].thread, p.call), Turn(halves[1].thread, q.call)]
    ensures Blocks(process, h, 0, halves) ==
            Granted(p.state, 0, p.call.request)
            + Granted(q.state, NextEpoch(p.state, 0, p.call.request), q.call.request)
  {
    var h' := StepHalf(process, h, halves[0]);
    assert h'.pending[halves[1].thread] == q && halves[1..][0] == halves[1] && halves[1..][1..] == [];
    LastEnds(process, h', NextEpoch(p.state, 0, p.call.request), halves[1..], q);
  }

  lemma {:induction false} LastEnds(process: Processes, h: Host, epoch: nat, halves: seq<Half>, q: Pending)
    requires |halves| == 1 && halves[0].End? && halves[0].thread in h.pending && h.pending[halves[0].thread] == q
    requires Accepted(q.state, q.call.request.polls).Some?
    ensures AllEnabled(process, h, halves) && Completed(process, h, halves) == [Turn(halves[0].thread, q.call)]
    ensures Blocks(process, h, epoch, halves) == Granted(q.state, epoch, q.call.request)
  {
  }

  lemma SameStart(s: State, epoch: nat, r: Request, r': Request, tv: TimeVal)
    requires Accepted(s, r.polls) == Accepted(s, r'.polls) == Some(tv)
    ensures !AllDisjoint(Granted(s, 0, r) + Granted(s, epoch, r'))
  {
    GrantIsExact(s, 0, r, tv);
    GrantIsExact(s, epoch, r', tv);
    var bs := Granted(s, 0, r) + Granted(s, epoch, r');
    assert Holds(bs[0], bs[0].start, bs[0].clockSeq) && Holds(bs[1], bs[0].start, bs[0].clockSeq);
  }

  /** A schedule of these threads, under which the completed calls in their order
      have no collision and the time goes back fewer than 2^14 times. */
  ghost predicate IsTame(process: Processes, threads: set<nat>, h: Host, s: State, halves: seq<Half>) {
    && AllEnabled(process, h, halves) && Within(halves, threads)
    && var rs := Requests(Completed(process, h, halves));
    CollisionFree(s, rs) && BackwardSteps(s, rs) < SEQUENCES
  }

  ghost predicate NeverShare(process: Processes, threads: set<nat>, h: Host, s: State) {
    forall halves | IsTame(process, threads, h, s, halves) :: AllDisjoint(Blocks(process, h, 0, halves))
  }

  lemma {:induction false} TameTurnsAreDisjoint(process: Processes, threads: set<nat>, h: Host, s: State,
                                                halves: seq<Half>)
    requires IsIdle(h) && HasState(h.text, s) && OneThreadEach(process, threads)
    requires IsTame(process, threads, h, s, halves)
    ensures AllDisjoint(Blocks(process, h, 0, halves))
  {
    var turns := Completed(process, h, halves);
    LockedCallsTakeTurns(process, h, 0, halves, threads);
    SharedRunIsOneRun(h.text, h.own, 0, turns, s);
    RequestsOfCalls(turns);
    BlocksAreDisjoint(s, 0, Requests(turns));
  }

  /** Two threads of one process have a tame schedule under which they both reserve
      the first tick of a time one or two seconds on. */
  lemma {:induction false} SharedProcessShares(process: Processes, threads: set<nat>, h: Host, s: State, t: nat, u: nat)
    returns (halves: seq<Half>, tv: TimeVal)
    requires IsIdle(h) && HasState(h.text, s) && s.last.sec + 2 < TWO60
    requires t in threads && u in threads && process(t) == process(u) && t != u
    ensures IsTame(process, threads, h, s, halves) && !AllDisjoint(Blocks(process, h, 0, halves))
    ensures 0 < tv.sec && (tv.sec == 1 || tv.sec == s.last.sec + 2) && tv.usec == 0
    ensures forall b <- Blocks(process, h, 0, halves) :: b.len == 1 && b.start == TickOf(tv, 0)
  {
    var c: Call;
    c, tv := LaterCall(s);
    halves := Overlap(process, h, t, u, s, c, tv);
    WithinMore(halves, {t, u}, threads);
    TameIf(process, threads, h, s, halves, [Turn(t, c), Turn(u, c)], c.request);
  }

  lemma {:induction false} LaterCall(s: State) returns (c: Call, tv: TimeVal)
    requires WellFormed(s) && s.last.sec + 2 < TWO60
    ensures IsCall(c) && c.request == Request([tv], 1) && Accepted(s, c.request.polls) == Some(tv)
    ensures 0 < tv.sec && (tv.sec == 1 || tv.sec == s.last.sec + 2) && tv.usec == 0 && Before(s.last, tv)
    ensures CollisionFree(s, [c.request, c.request]) && BackwardSteps(s, [c.request, c.request]) == 0
  {
    tv := TimeVal(if s.last.sec < 0 then 1 else s.last.sec + 2, 0);
    c := Call(Request([tv], 1), 0, tv, true);
    SameReadTwice(s, c.request, tv);
  }

  lemma {:induction false} Overlap(process: Processes, h: Host, t: nat, u: nat, s: State, c: Call, tv: TimeVal)
    returns (halves: seq<Half>)
    requires t != u && process(t) == process(u) && IsIdle(h) && HasState(h.text, s) && IsCall(c)
    requires c.request == Request([tv], 1) && Accepted(s, c.request.polls) == Some(tv) && Before(s.last, tv)
    ensures Within(halves, {t, u}) && AllEnabled(process, h, halves)
    ensures Completed(process, h, halves) == [Turn(t, c), Turn(u, c)] && !AllDisjoint(Blocks(process, h, 0, halves))
    ensures forall b <- Blocks(process, h, 0, halves) :: b.len == 1 && b.start == TickOf(tv, 0)
  {
    halves := OverlapOf(t, u, c);
    OverlappedCallsRepeat(process, h, halves, s, tv);
    SingleGrants(s, NextEpoch(s, 0, c.request), c.request, tv, Blocks(process, h, 0, halves));
  }

  lemma OverlapOf(t: nat, u: nat, c: Call) returns (halves: seq<Half>)
    requires t != u && IsCall(c)
    ensures Overlaps(halves) && halves[0] == Begin(t, c) && halves[1] == Begin(u, c) && Within(halves, {t, u})
  {
    halves := [Begin(t, c), Begin(u, c), End(t), End(u)];
  }

  lemma SingleGrants(s: State, epoch: nat, r: Request, tv: TimeVal, bs: seq<Block>)
    requires r == Request([tv], 1) && Accepted(s, r.polls) == Some(tv) && Before(s.last, tv)
    requires bs == Granted(s, 0, r) + Granted(s, epoch, r)
    ensures forall b <- bs :: b.len == 1 && b.start == TickOf(tv, 0)
  {
    GrantIsExact(s, 0, r, tv);
    GrantIsExact(s, epoch, r, tv);
  }

  lemma WithinMore(halves: seq<Half>, few: set<nat>, threads: set<nat>)
    requires Within(halves, few) && few <= threads
    ensures Within(halves, threads)
  {
  }

  lemma {:induction false} TameIf(process: Processes, threads: set<nat>, h: Host, s: State, halves: seq<Half>,
                                  turns: seq<Turn>, r: Request)
    requires AllEnabled(process, h, halves) && Within(halves, threads) && Completed(process, h, halves) == turns
    requires |turns| == 2 && turns[0].call.request == turns[1].call.request == r
    requires CollisionFree(s, [r, r]) && BackwardSteps(s, [r, r]) == 0
    ensures IsTame(process, threads, h, s, halves)
  {
    assert Requests(turns) == [r, r];
  }

  /** Every completed call reserves at least one tick. */
  lemma {:induction false} BlocksHoldTicks(process: Processes, h: Host, epoch: nat, halves: seq<Half>)
    requires AllEnabled(process, h, halves)
    ensures forall b <- Blocks(process, h, epoch, halves) :: b.len > 0
    decreases |halves|
  {
    if halves != [] {
      var h' := StepHalf(process, h, halves[0]);
      match halves[0]
      case Begin(_, _) => BlocksHoldTicks(process, h', epoch, halves[1..]);
      case End(t) =>
        BlocksHoldTicks(process, h', NextEpoch(h.pending[t].state, epoch, h.pending[t].call.request), halves[1..]);
    }
  }

  /** The lock keeps these threads from sharing a tick under every tame schedule, if
      and only if no two of them belong to one process. */
  lemma {:induction false} LockIsEnoughIff(process: Processes, threads: set<nat>, h: Host, s: State)
    requires IsIdle(h) && HasState(h.text, s) && s.last.sec + 2 < TWO60
    ensures NeverShare(process, threads, h, s) <==> OneThreadEach(process, threads)
  {
    if OneThreadEach(process, threads) {
      forall halves | IsTame(process, threads, h, s, halves) ensures AllDisjoint(Blocks(process, h, 0, halves)) {
        TameTurnsAreDisjoint(process, threads, h, s, halves);
      }
    } else {
      var t, u :| t in threads && u in threads && process(t) == process(u) && t != u;
      var halves, tv := SharedProcessShares(process, threads, h, s, t, u);
    }
  }
}
