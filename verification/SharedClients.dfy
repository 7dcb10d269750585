/** The caching threads over the state file: a call of uuid_generate_time asks a clock
    whose state is the text of the file, whichever process asks. */
module SharedClients {
  import opened Bytes
  import opened Options
  import opened UuidLayout
  import opened UuidTime
  import opened Clock
  import opened ClockFile
  import opened TimeClients
  import ClockHalves

  /** The state file, the statics of the processes that ask the clock, the caches. */
  datatype Shared = Shared(text: string, own: map<nat, State>, caches: map<nat, Cache>)

  /** A call, the process that asks the clock on its behalf -- the daemon or the
      caller's own -- and what get_clock is given besides the request. */
  datatype Visit = Visit(event: Event, asker: nat, seed: Word16, first: TimeVal, truncated: bool)

  function CallOf(v: Visit): Call {
    Call(RequestOf(v.event), v.seed, v.first, v.truncated)
  }

  /** The state of the clock that a call meets. */
  function Met(h: Shared, v: Visit): State {
    Loaded(h.text, h.own, v.asker, CallOf(v))
  }

  /** The call uses the cache of its thread. */
  predicate Draws(h: Shared, v: Visit) {
    UsesCache(System(FRESH, h.caches), v.event)
  }

  ghost function SharedStep(h: Shared, v: Visit): (Shared, seq<Packed>) {
    var s := Met(h, v);
    var (sys, out) := SystemStep(System(s, h.caches), v.event);
    if Draws(h, v) then (h.(caches := sys.caches), out)
    else (Shared(TextAfter(h.text, s, CallOf(v)), h.own[v.asker := Step(s, RequestOf(v.event))], sys.caches), out)
  }

  ghost function SharedOutputs(h: Shared, vs: seq<Visit>): seq<Packed>
    decreases |vs|
  {
    if vs == [] then [] else SharedStep(h, vs[0]).1 + SharedOutputs(SharedStep(h, vs[0]).0, vs[1..])
  }

  function Events(vs: seq<Visit>): seq<Event> {
    seq(|vs|, i requires 0 <= i < |vs| => vs[i].event)
  }

  /** A call as it runs: the clock is asked through the file if the cache has nothing
      left, by the daemon or by the caller itself, and then the thread hands out
      what it has or has got. */
  method Generate(client: ClientThread, clock: ClockThread, file: StateFile, v: Visit, ghost h: Shared,
                  out: array<Byte>)
    returns (ok: bool)
    requires out.Length == 16 && file.text == h.text && clock.Statics() == OwnOf(h.own, v.asker)
    requires client.Statics() == CacheOf(System(FRESH, h.caches), v.event.client)
    modifies client, clock, file, out
    ensures var (h', outs) := SharedStep(h, v);
            && file.text == h'.text && clock.Statics() == OwnOf(h'.own, v.asker)
            && client.Statics() == CacheOf(System(FRESH, h'.caches), v.event.client)
            && outs == if ok then [out[..]] else []
  {
    var e := v.event;
    if client.num > 0 && e.now <= client.lastTime + 1 {
      var nothing := out[..];
      ghost var uu := Next(client.Statics().uu);
      HandOutEffect(System(Met(h, v), h.caches), e, uu);
      client.GenerateTime(e.now, None, e.nowAfter, nothing, out);
      return true;
    }
    ghost var s := Met(h, v);
    ok := ClockFile.GenerateTime(clock, file, CallOf(v), e.node, out);
    if !ok {
      NotServed(System(s, h.caches), e);
      return;
    }
    var uuid := out[..];
    ghost var b := Granted(s, 0, RequestOf(e))[0];
    assert uuid == Wire(UuidAt(b, 0, e.node));
    if e.answer.Lost? {
      client.num := 0;
      return false;
    }
    ServedStep(System(s, h.caches), e, b);
    client.GenerateTime(e.now, if e.answer.Served? then Some(uuid) else None, e.nowAfter, uuid, out);
  }

  lemma NotServed(sys: System, e: Event)
    requires !UsesCache(sys, e) && Accepted(sys.clock, RequestOf(e).polls).None?
    ensures SystemStep(sys, e) == (sys, [])
  {
  }

  lemma ServedStep(sys: System, e: Event, b: Block)
    requires !UsesCache(sys, e) && !e.answer.Lost? && Granted(sys.clock, 0, RequestOf(e)) == [b]
    ensures var u := Wire(UuidAt(b, 0, e.node));
            var reply := if e.answer.Served? then Some(u) else None;
            var (c, out) := TimeClients.Generate(CacheOf(sys, e.client), e.now, reply, e.nowAfter, u);
            SystemStep(sys, e) == (System(Step(sys.clock, RequestOf(e)), sys.caches[e.client := c]), [out])
  {
  }

  /** What a call does to the clock. */
  lemma ClockMoves(sys: System, e: Event)
    ensures SystemStep(sys, e).0.clock == if UsesCache(sys, e) then sys.clock else Step(sys.clock, RequestOf(e))
  {
    if UsesCache(sys, e) {
    } else if Accepted(sys.clock, RequestOf(e).polls).None? {
      NotServed(sys, e);
    } else if !e.answer.Lost? {
      ServedStep(sys, e, Granted(sys.clock, 0, RequestOf(e))[0]);
    }
  }

  lemma {:induction false} OutputsCons(sys: System, e: Event, es: seq<Event>)
    ensures Outputs(sys, [e] + es) == SystemStep(sys, e).1 + Outputs(SystemStep(sys, e).0, es)
  {
    assert ([e] + es)[1..] == es;
  }

  /** The call takes no notice of how the clock is kept, while the file holds its state. */
  lemma StepIsShared(h: Shared, v: Visit, s: State) returns (h': Shared, s': State, out: seq<Packed>)
    requires HasState(h.text, s) && IsCall(CallOf(v))
    ensures SharedStep(h, v) == (h', out) && SystemStep(System(s, h.caches), v.event) == (System(s', h'.caches), out)
    ensures HasState(h'.text, s')
  {
    assert Met(h, v) == s;
    ClockMoves(System(s, h.caches), v.event);
    if !Draws(h, v) && Accepted(s, RequestOf(v.event).polls).Some? {
      WrittenStateIsRead(h.text, s, CallOf(v));
    }
    h', out := SharedStep(h, v).0, SharedStep(h, v).1;
    s' := SystemStep(System(s, h.caches), v.event).0.clock;
  }

  lemma {:induction false} BothUnfold(h: Shared, vs: seq<Visit>, sys: System, h': Shared, sys': System,
                                      out: seq<Packed>)
    requires vs != [] && SharedStep(h, vs[0]) == (h', out) && SystemStep(sys, vs[0].event) == (sys', out)
    requires SharedOutputs(h', vs[1..]) == Outputs(sys', Events(vs[1..]))
    ensures SharedOutputs(h, vs) == Outputs(sys, Events(vs))
  {
    OutputsCons(sys, vs[0].event, Events(vs[1..]));
    assert Events(vs) == [vs[0].event] + Events(vs[1..]);
  }

  /** While the file holds a state, the threads of all processes hand out what they
      would over one clock. */
  lemma {:induction false} SharedClockIsOneClock(h: Shared, vs: seq<Visit>, s: State)
    requires HasState(h.text, s) && forall v <- vs :: IsCall(CallOf(v))
    ensures SharedOutputs(h, vs) == Outputs(System(s, h.caches), Events(vs))
    decreases |vs|
  {
    if vs != [] {
      var h', s', out := StepIsShared(h, vs[0], s);
      SharedClockIsOneClock(h', vs[1..], s');
      BothUnfold(h, vs, System(s, h.caches), h', System(s', h'.caches), out);
    }
  }

  /** The first call on a host without a usable state file makes up the state. */
  lemma {:induction false} NewFileIsOneClock(h: Shared, vs: seq<Visit>)
    requires ScanState(h.text).None? && h.own == map[] && h.caches == map[]
    requires vs != [] && vs[0].event.polls != [] && forall v <- vs :: IsCall(CallOf(v))
    ensures SharedOutputs(h, vs) == Outputs(System(FirstState(CallOf(vs[0])), map[]), Events(vs))
  {
    var s := FirstState(CallOf(vs[0]));
    var h', s', out := FirstStepIsShared(h, vs[0], s);
    SharedClockIsOneClock(h', vs[1..], s');
    BothUnfold(h, vs, System(s, map[]), h', System(s', h'.caches), out);
  }

  lemma FirstStepIsShared(h: Shared, v: Visit, s: State) returns (h': Shared, s': State, out: seq<Packed>)
    requires ScanState(h.text).None? && h.own == map[] && h.caches == map[]
    requires v.event.polls != [] && IsCall(CallOf(v)) && s == FirstState(CallOf(v))
    ensures SharedStep(h, v) == (h', out) && SystemStep(System(s, map[]), v.event) == (System(s', h'.caches), out)
    ensures HasState(h'.text, s')
  {
    assert Met(h, v) == s && !Draws(h, v);
    assert Accepted(s, RequestOf(v.event).polls) == Some(v.event.polls[0]);
    WrittenStateIsRead(h.text, s, CallOf(v));
    ClockMoves(System(s, map[]), v.event);
    h', out := SharedStep(h, v).0, SharedStep(h, v).1;
    s' := SystemStep(System(s, map[]), v.event).0.clock;
  }

  /** Threads of any processes that share a new state file and a daemon never hand out
      a UUID twice, under the conditions of NeverHandedOutTwice; in particular, calls of
      get_clock do not overlap. */
  lemma {:induction false} HostNeverHandsOutTwice(h: Shared, vs: seq<Visit>)
    requires ScanState(h.text).None? && h.own == map[] && h.caches == map[]
    requires vs != [] && vs[0].event.polls != [] && forall v <- vs :: IsCall(CallOf(v)) && IsGenerous(v.event)
    requires var s := FirstState(CallOf(vs[0]));
             var rs := ClockRequests(System(s, map[]), Events(vs));
             && CollisionFree(s, rs) && BackwardSteps(s, rs) < SEQUENCES
             && forall b <- Run(s, 0, rs) :: InRange(b)
    ensures AllDifferent(SharedOutputs(h, vs))
  {
    NewFileIsOneClock(h, vs);
    forall e | e in Events(vs) ensures IsEvent(e) && IsGenerous(e) {
      var i :| 0 <= i < |vs| && vs[i].event == e;
      assert IsCall(CallOf(vs[i])) && IsGenerous(vs[i].event);
    }
    NeverHandedOutTwice(System(FirstState(CallOf(vs[0])), map[]), Events(vs));
  }

  // Calls that overlap

  lemma DisjointFirsts(bs: seq<Block>, node: Node)
    requires AllDisjoint(bs) && forall b <- bs :: InRange(b) && b.len > 0
    ensures AllDifferent(FirstUuids(bs, node))
  {
    var nodes, us := seq(|bs|, _ => node), FirstUuids(bs, node);
    forall i, j | 0 <= i < j < |us| ensures us[i] != us[j] {
      assert bs[i] in bs && bs[j] in bs;
      TagsSeparate(bs, nodes, Tag(i, 0), Tag(j, 0));
    }
  }

  /** Under every schedule of these threads that is tame and stays within 60-bit
      timestamps, the UUIDs that the calls make on one node are all different. */
  ghost predicate UuidsDiffer(process: ClockHalves.Processes, threads: set<nat>, h: ClockHalves.Host, s: State,
                              node: Node) {
    forall halves | IsProper(process, threads, h, s, halves) ::
      AllDifferent(FirstUuids(ClockHalves.Blocks(process, h, 0, halves), node))
  }

  ghost predicate IsProper(process: ClockHalves.Processes, threads: set<nat>, h: ClockHalves.Host, s: State,
                           halves: seq<ClockHalves.Half>) {
    && ClockHalves.IsTame(process, threads, h, s, halves)
    && forall b <- ClockHalves.Blocks(process, h, 0, halves) :: InRange(b)
  }

  /** The lock makes the UUIDs of these threads different, overlapping calls included,
      if and only if no two of the threads belong to one process. */
  lemma {:induction false} LockedUuidsDifferIff(process: ClockHalves.Processes, threads: set<nat>, h: ClockHalves.Host,
                                                s: State, node: Node)
    requires ClockHalves.IsIdle(h) && HasState(h.text, s) && (s.last.sec + 3) * TICKS_PER_SECOND + OFFSET < TWO60
    ensures UuidsDiffer(process, threads, h, s, node) <==> ClockHalves.OneThreadEach(process, threads)
  {
    if ClockHalves.OneThreadEach(process, threads) {
      forall halves | IsProper(process, threads, h, s, halves)
        ensures AllDifferent(FirstUuids(ClockHalves.Blocks(process, h, 0, halves), node))
      {
        ClockHalves.TameTurnsAreDisjoint(process, threads, h, s, halves);
        ClockHalves.BlocksHoldTicks(process, h, 0, halves);
        DisjointFirsts(ClockHalves.Blocks(process, h, 0, halves), node);
      }
    } else {
      var t, u :| t in threads && u in threads && process(t) == process(u) && t != u;
      var halves, tv := ClockHalves.SharedProcessShares(process, threads, h, s, t, u);
      OverlapRepeats(ClockHalves.Blocks(process, h, 0, halves), node);
      assert IsProper(process, threads, h, s, halves);
    }
  }
}
