/** uuid_generate_time: threads that refill a private cache with 1000 reserved
    timestamps from the uuidd daemon, hand them out by incrementing, drop a stale
    cache, and fall back to the clock itself when there is no daemon. The main
    result is that no UUID is ever handed out twice, over all interleavings. */
module TimeClients {
  import opened Bytes
  import opened Options
  import opened UuidLayout
  import opened UuidTime
  import opened Clock

  const BULK: int := 1000

  /** The statics `num`, `uu` and `last_time` of a thread. */
  datatype Cache = Cache(num: int, uu: Uuid, lastTime: int)

  /** Cached UUIDs more than a second old are dropped. */
  function Aged(c: Cache, now: int): Cache {
    if c.num > 0 && now > c.lastTime + 1 then c.(num := 0) else c
  }

  /** One call, given what the daemon replies and what the local clock would give. */
  ghost function Generate(c: Cache, now: int, reply: Option<Packed>, nowAfter: int, own: Packed): (Cache, Packed) {
    var c' := Aged(c, now);
    if c'.num > 0 then (Cache(c'.num - 1, Next(c'.uu), c'.lastTime), Wire(Next(c'.uu)))
    else if reply.Some? then (Cache(BULK - 1, Fields(reply.value), nowAfter), reply.value)
    else (c'.(num := 0), own)
  }

  class ClientThread {
    var num: int
    var uu: Uuid
    var lastTime: int

    constructor ()
      ensures num == 0 && lastTime == 0
    {
      num, lastTime := 0, 0;
      uu := Uuid(0, 0, 0, 0, [0, 0, 0, 0, 0, 0]);
    }

    ghost function Statics(): Cache
      reads this
    {
      Cache(num, uu, lastTime)
    }

    /** uuid_generate_time, with thread-local storage. */
    method GenerateTime(now: int, reply: Option<Packed>, nowAfter: int, own: Packed, out: array<Byte>)
      requires out.Length == 16
      modifies this, out
      ensures (Statics(), out[..]) == Generate(old(Statics()), now, reply, nowAfter, own)
    {
      if num > 0 {
        if now > lastTime + 1 {
          num := 0;
        }
      }
      if num <= 0 {
        num := BULK;
        if reply.Some? {
          forall i | 0 <= i < 16 {
            out[i] := reply.value[i];
          }
          lastTime := nowAfter;
          uu := Unpack(out);
          assert out[..] == reply.value;
          LayoutIsBijective(reply.value, uu, reply.value, Fields(reply.value));
          num := num - 1;
          return;
        }
        num := 0;
      }
      if num > 0 {
        uu := uu.(timeLow := (uu.timeLow + 1) % TWO32);
        if uu.timeLow == 0 {
          uu := uu.(timeMid := (uu.timeMid + 1) % TWO16);
          if uu.timeMid == 0 {
            uu := uu.(timeHi := (uu.timeHi + 1) % TWO16);
          }
        }
        num := num - 1;
        Pack(uu, out);
        LayoutIsBijective(out[..], uu, Wire(uu), uu);
        return;
      }
      forall i | 0 <= i < 16 {
        out[i] := own[i];
      }
      assert out[..] == own;
    }
  }

  // All threads together, over one clock

  datatype System = System(clock: State, caches: map<nat, Cache>)

  /** What comes of asking the daemon: no answer, the first UUID of the timestamps
      it reserved, or a reservation whose answer gets lost. How many it reserved
      is its own affair: the count in the answer is never looked at. */
  datatype Answer = Silent | Served(grant: int) | Lost(grant: int)

  /** A call by one thread: the time before and after, what comes of asking the
      daemon, the node of the process that makes the UUID, and the clock readings
      that a request on behalf of the call sees. */
  datatype Event = Event(client: nat, now: int, nowAfter: int, answer: Answer, node: Node, polls: seq<TimeVal>)

  const EMPTY: Cache := Cache(0, Uuid(0, 0, 0, 0, [0, 0, 0, 0, 0, 0]), 0)

  function CacheOf(sys: System, client: nat): Cache {
    if client in sys.caches then sys.caches[client] else EMPTY
  }

  predicate UsesCache(sys: System, e: Event) {
    Aged(CacheOf(sys, e.client), e.now).num > 0
  }

  /** The daemon reserves what it grants, the fallback passes no count at all. */
  function RequestOf(e: Event): Request {
    Request(e.polls, if e.answer.Silent? then 0 else e.answer.grant)
  }

  /** The UUID of tick `offset` of a block. */
  function UuidAt(b: Block, offset: int, node: Node): Uuid {
    Stamp(Register(b.start + offset), b.clockSeq, node)
  }

  ghost function Fresh(sys: System, e: Event): Option<Packed> {
    var bs := Granted(sys.clock, 0, RequestOf(e));
    if bs == [] then None else Some(Wire(UuidAt(bs[0], 0, e.node)))
  }

  /** The effect of a call and the UUID it returns; a call whose clock request
      still spins has no effect yet. A call whose answer gets lost empties the cache
      and goes on with the fallback, which is a call of its own. */
  ghost function SystemStep(sys: System, e: Event): (System, seq<Packed>) {
    var c := CacheOf(sys, e.client);
    if UsesCache(sys, e) then
      var (c', out) := Generate(c, e.now, None, e.nowAfter, Wire(c.uu));
      (sys.(caches := sys.caches[e.client := c']), [out])
    else
      match Fresh(sys, e)
      case None => (sys, [])
      case Some(b) =>
        if e.answer.Lost? then
          (System(Step(sys.clock, RequestOf(e)), sys.caches[e.client := Aged(c, e.now).(num := 0)]), [])
        else
          var (c', out) := Generate(c, e.now, if e.answer.Served? then Some(b) else None, e.nowAfter, b);
          (System(Step(sys.clock, RequestOf(e)), sys.caches[e.client := c']), [out])
  }

  /** The UUIDs handed out over a run, in order. */
  ghost function Outputs(sys: System, es: seq<Event>): seq<Packed>
    decreases |es|
  {
    if es == [] then [] else SystemStep(sys, es[0]).1 + Outputs(SystemStep(sys, es[0]).0, es[1..])
  }

  /** The clock requests made over a run. */
  ghost function ClockRequests(sys: System, es: seq<Event>): seq<Request>
    decreases |es|
  {
    if es == [] then [] else Asked(sys, es[0]) + ClockRequests(SystemStep(sys, es[0]).0, es[1..])
  }

  function Asked(sys: System, e: Event): seq<Request> {
    if UsesCache(sys, e) then [] else [RequestOf(e)]
  }

  /** No thread holds reserved timestamps, as when all are new. */
  predicate NothingCached(sys: System) {
    forall client <- sys.caches :: sys.caches[client].num <= 0
  }

  ghost predicate AllDifferent(bs: seq<Packed>) {
    forall i, j | 0 <= i < j < |bs| :: bs[i] != bs[j]
  }

  // Tracing every UUID to a tick of a block

  /** Tick `offset` of block number `block`. */
  datatype Tag = Tag(block: nat, offset: nat)

  /** A system with its history: the blocks granted so far and the nodes they went
      to, where each UUID handed out comes from, and the next tick of each cache. */
  datatype Traced = Traced(sys: System, epoch: nat, blocks: seq<Block>, nodes: seq<Node>, next: map<nat, Tag>,
                           outs: seq<Packed>, tags: seq<Tag>)

  /** All ticks of the block fit the 60-bit timestamp. */
  predicate InRange(b: Block) {
    0 <= b.start && LastTick(b) + OFFSET < TWO60
  }

  predicate IsActive(t: Traced, client: nat) {
    client in t.sys.caches && t.sys.caches[client].num > 0
  }

  /** The cached UUID is the one before the cache's next tick, and the ticks left
      are the rest of the first 1000 of its block. */
  predicate CacheInvariant(t: Traced, client: nat)
    requires |t.nodes| == |t.blocks|
  {
    IsActive(t, client) ==>
      && client in t.next
      && var c, tag := t.sys.caches[client], t.next[client];
      && tag.block < |t.blocks|
      && t.blocks[tag.block].len >= BULK == tag.offset + c.num
      && 0 < tag.offset
      && c.uu == UuidAt(t.blocks[tag.block], tag.offset - 1, t.nodes[tag.block])
  }

  /** Every UUID handed out is the one of its tag. */
  ghost predicate TagsAreRight(t: Traced) {
    && |t.outs| == |t.tags| && |t.nodes| == |t.blocks|
    && forall i | 0 <= i < |t.tags| ::
         && t.tags[i].block < |t.blocks|
         && t.tags[i].offset < t.blocks[t.tags[i].block].len
         && t.outs[i] == Wire(UuidAt(t.blocks[t.tags[i].block], t.tags[i].offset, t.nodes[t.tags[i].block]))
  }

  /** No tick has been handed out twice, and none that a cache still holds. */
  predicate TagsAreDistinct(t: Traced) {
    && (forall i, j | 0 <= i < j < |t.tags| :: t.tags[i] != t.tags[j])
    && (forall client, i | client in t.next && IsActive(t, client) && 0 <= i < |t.tags| ::
          t.tags[i].block == t.next[client].block ==> t.tags[i].offset < t.next[client].offset)
    && (forall x, y | x in t.next && y in t.next && x != y && IsActive(t, x) && IsActive(t, y) ::
          t.next[x].block != t.next[y].block)
  }

  ghost predicate Inv(t: Traced) {
    && WellFormed(t.sys.clock)
    && TagsAreRight(t)
    && TagsAreDistinct(t)
    && (forall client :: client in t.sys.caches ==> CacheInvariant(t, client))
    && (forall b <- t.blocks :: InRange(b))
  }

  lemma NextTick(b: Block, offset: nat, node: Node)
    requires InRange(b) && offset + 1 < b.len
    ensures Next(UuidAt(b, offset, node)) == UuidAt(b, offset + 1, node)
  {
    SmallRegister(b.start + offset);
    SmallRegister(b.start + offset + 1);
    NextOfStamp(b.start + offset + OFFSET, b.clockSeq, node);
  }

  lemma SmallRegister(tick: nat)
    requires tick + OFFSET < TWO60
    ensures Register(tick) == tick + OFFSET
  {
  }

  // A hand-out from a cache

  /** The history after a cache has handed out its next tick as `uu`. */
  ghost function HandedOut(t: Traced, client: nat, uu: Uuid, lastTime: int): Traced
    requires client in t.sys.caches && client in t.next
  {
    var tag := t.next[client];
    var c := Cache(t.sys.caches[client].num - 1, uu, lastTime);
    t.(sys := t.sys.(caches := t.sys.caches[client := c]), next := t.next[client := Tag(tag.block, tag.offset + 1)],
       outs := t.outs + [Wire(uu)], tags := t.tags + [tag])
  }

  lemma HandOutDistinct(t: Traced, client: nat, t': Traced)
    requires TagsAreDistinct(t) && IsActive(t, client) && client in t.next
    requires t'.tags == t.tags + [t.next[client]]
    requires t'.next == t.next[client := Tag(t.next[client].block, t.next[client].offset + 1)]
    requires forall x :: IsActive(t', x) ==> IsActive(t, x)
    ensures TagsAreDistinct(t')
  {
  }

  lemma HandOutCaches(t: Traced, client: nat, uu: Uuid, lastTime: int)
    requires |t.nodes| == |t.blocks| && forall x :: x in t.sys.caches ==> CacheInvariant(t, x)
    requires IsActive(t, client) && CacheInvariant(t, client)
    requires var tag := t.next[client]; uu == UuidAt(t.blocks[tag.block], tag.offset, t.nodes[tag.block])
    ensures var t' := HandedOut(t, client, uu, lastTime);
            forall x :: x in t'.sys.caches ==> CacheInvariant(t', x)
  {
    var t' := HandedOut(t, client, uu, lastTime);
    assert CacheInvariant(t, client);
    forall x | x in t'.sys.caches ensures CacheInvariant(t', x) {
      if x != client {
        assert CacheInvariant(t, x);
      }
    }
  }

  lemma HandOutEffect(sys: System, e: Event, uu: Uuid)
    requires UsesCache(sys, e) && uu == Next(CacheOf(sys, e.client).uu)
    ensures e.client in sys.caches && sys.caches[e.client].num > 0
    ensures var c := sys.caches[e.client];
            SystemStep(sys, e) == (sys.(caches := sys.caches[e.client := Cache(c.num - 1, uu, c.lastTime)]), [Wire(uu)])
  {
  }

  lemma HandOut(t: Traced, e: Event) returns (t': Traced)
    requires Inv(t) && UsesCache(t.sys, e)
    ensures Inv(t') && SystemStep(t.sys, e).0 == t'.sys && t'.outs == t.outs + SystemStep(t.sys, e).1
    ensures t'.blocks == t.blocks && t'.epoch == t.epoch
  {
    var uu := Next(CacheOf(t.sys, e.client).uu);
    HandOutEffect(t.sys, e, uu);
    assert CacheInvariant(t, e.client);
    var tag := t.next[e.client];
    NextTick(t.blocks[tag.block], tag.offset - 1, t.nodes[tag.block]);
    t' := HandedOut(t, e.client, uu, t.sys.caches[e.client].lastTime);
    HandedOutInv(t, e.client, uu, t.sys.caches[e.client].lastTime);
  }

  lemma HandedOutInv(t: Traced, client: nat, uu: Uuid, lastTime: int)
    requires Inv(t) && IsActive(t, client) && CacheInvariant(t, client)
    requires var tag := t.next[client]; uu == UuidAt(t.blocks[tag.block], tag.offset, t.nodes[tag.block])
    ensures Inv(HandedOut(t, client, uu, lastTime))
  {
    var t' := HandedOut(t, client, uu, lastTime);
    HandOutDistinct(t, client, t');
    HandOutCaches(t, client, uu, lastTime);
  }

  // A refill, or a UUID straight from the clock

  /** The history after block `b` was granted and its first tick handed out as
      `uu`, leaving `num` ticks in the cache. */
  ghost function Refilled(t: Traced, client: nat, b: Block, node: Node, clock: State, uu: Uuid, c: Cache): Traced {
    Traced(System(clock, t.sys.caches[client := c]), b.epoch, t.blocks + [b], t.nodes + [node],
           t.next[client := Tag(|t.blocks|, 1)], t.outs + [Wire(uu)], t.tags + [Tag(|t.blocks|, 0)])
  }

  lemma RefillDistinct(t: Traced, client: nat, t': Traced)
    requires TagsAreDistinct(t) && forall i | 0 <= i < |t.tags| :: t.tags[i].block < |t.blocks|
    requires forall x | x in t.next && IsActive(t, x) :: t.next[x].block < |t.blocks|
    requires t'.tags == t.tags + [Tag(|t.blocks|, 0)]
    requires t'.next == t.next[client := Tag(|t.blocks|, 1)]
    requires forall x :: x != client && IsActive(t', x) ==> IsActive(t, x)
    ensures TagsAreDistinct(t')
  {
  }

  lemma RefillCaches(t: Traced, client: nat, t': Traced, c: Cache)
    requires |t.nodes| == |t.blocks| && |t'.nodes| == |t'.blocks|
    requires forall x :: x in t.sys.caches ==> CacheInvariant(t, x)
    requires t.blocks <= t'.blocks && t.nodes <= t'.nodes && t'.sys.caches == t.sys.caches[client := c]
    requires forall x :: x != client && x in t.next ==> x in t'.next && t'.next[x] == t.next[x]
    requires CacheInvariant(t', client)
    ensures forall x :: x in t'.sys.caches ==> CacheInvariant(t', x)
  {
    forall x | x in t'.sys.caches ensures CacheInvariant(t', x) {
      if x != client {
        assert CacheInvariant(t, x);
      }
    }
  }

  lemma RefillRight(t: Traced, b: Block, node: Node, t': Traced)
    requires TagsAreRight(t) && b.len > 0
    requires t'.blocks == t.blocks + [b] && t'.nodes == t.nodes + [node]
    requires t'.outs == t.outs + [Wire(UuidAt(b, 0, node))] && t'.tags == t.tags + [Tag(|t.blocks|, 0)]
    ensures TagsAreRight(t')
  {
  }

  lemma RefillEffect(sys: System, epoch: nat, e: Event, b: Block, uu: Uuid, c: Cache)
    requires !UsesCache(sys, e) && !e.answer.Lost? && Granted(sys.clock, epoch, RequestOf(e)) == [b]
    requires uu == UuidAt(b, 0, e.node)
    requires c == if e.answer.Served? then Cache(BULK - 1, uu, e.nowAfter)
                  else Aged(CacheOf(sys, e.client), e.now).(num := 0)
    ensures SystemStep(sys, e) == (System(Step(sys.clock, RequestOf(e)), sys.caches[e.client := c]), [Wire(uu)])
  {
    WireRoundTrip(uu, Wire(uu));
    assert Granted(sys.clock, 0, RequestOf(e)) == [b.(epoch := NextEpoch(sys.clock, 0, RequestOf(e)))];
    assert Fresh(sys, e) == Some(Wire(uu));
  }

  /** A daemon that answers has reserved at least what the thread believes. */
  predicate IsGenerous(e: Event) {
    e.answer.Served? ==> e.answer.grant >= BULK
  }

  lemma Refill(t: Traced, e: Event, b: Block) returns (t': Traced)
    requires Inv(t) && !UsesCache(t.sys, e) && !e.answer.Lost? && IsRequest(RequestOf(e)) && IsGenerous(e)
    requires Granted(t.sys.clock, t.epoch, RequestOf(e)) == [b] && InRange(b)
    ensures Inv(t') && SystemStep(t.sys, e).0 == t'.sys && t'.outs == t.outs + SystemStep(t.sys, e).1
    ensures t'.blocks == t.blocks + [b] && t'.epoch == b.epoch
    ensures t'.sys.clock == Step(t.sys.clock, RequestOf(e))
  {
    var uu := UuidAt(b, 0, e.node);
    var c := if e.answer.Served? then Cache(BULK - 1, uu, e.nowAfter)
             else Aged(CacheOf(t.sys, e.client), e.now).(num := 0);
    var clock := Step(t.sys.clock, RequestOf(e));
    StepKeepsWellFormed(t.sys.clock, t.epoch, RequestOf(e));
    RefillEffect(t.sys, t.epoch, e, b, uu, c);
    assert e.answer.Served? ==> b.len >= BULK;
    RefilledInv(t, e.client, b, e.node, clock, c);
    t' := Refilled(t, e.client, b, e.node, clock, uu, c);
  }

  lemma RefilledInv(t: Traced, client: nat, b: Block, node: Node, clock: State, c: Cache)
    requires Inv(t) && InRange(b) && b.len > 0 && WellFormed(clock)
    requires c.num <= 0 || (c.num == BULK - 1 && b.len >= BULK && c.uu == UuidAt(b, 0, node))
    ensures Inv(Refilled(t, client, b, node, clock, UuidAt(b, 0, node), c))
  {
    var t' := Refilled(t, client, b, node, clock, UuidAt(b, 0, node), c);
    RefillRight(t, b, node, t');
    forall x | x in t.next && IsActive(t, x) ensures t.next[x].block < |t.blocks| {
      assert CacheInvariant(t, x);
    }
    RefillDistinct(t, client, t');
    RefillCaches(t, client, t', c);
  }

  // A reservation whose answer gets lost

  /** The history after block `b` was granted and nobody heard of it. */
  ghost function Wasted(t: Traced, client: nat, b: Block, node: Node, clock: State, c: Cache): Traced {
    t.(sys := System(clock, t.sys.caches[client := c]), epoch := b.epoch, blocks := t.blocks + [b],
       nodes := t.nodes + [node])
  }

  lemma Waste(t: Traced, e: Event, b: Block) returns (t': Traced)
    requires Inv(t) && !UsesCache(t.sys, e) && e.answer.Lost? && IsRequest(RequestOf(e))
    requires Granted(t.sys.clock, t.epoch, RequestOf(e)) == [b] && InRange(b)
    ensures Inv(t') && SystemStep(t.sys, e) == (t'.sys, []) && t'.outs == t.outs
    ensures t'.blocks == t.blocks + [b] && t'.epoch == b.epoch
    ensures t'.sys.clock == Step(t.sys.clock, RequestOf(e)) && CacheOf(t'.sys, e.client).num == 0
  {
    var clock, c := Step(t.sys.clock, RequestOf(e)), Aged(CacheOf(t.sys, e.client), e.now).(num := 0);
    StepKeepsWellFormed(t.sys.clock, t.epoch, RequestOf(e));
    assert Granted(t.sys.clock, 0, RequestOf(e)) == [b.(epoch := NextEpoch(t.sys.clock, 0, RequestOf(e)))];
    t' := Wasted(t, e.client, b, e.node, clock, c);
    WastedInv(t, e.client, b, e.node, clock, c);
  }

  lemma WastedInv(t: Traced, client: nat, b: Block, node: Node, clock: State, c: Cache)
    requires Inv(t) && InRange(b) && WellFormed(clock) && c.num <= 0
    ensures Inv(Wasted(t, client, b, node, clock, c))
  {
    var t' := Wasted(t, client, b, node, clock, c);
    forall x | x in t'.sys.caches ensures CacheInvariant(t', x) {
      if x != client {
        assert CacheInvariant(t, x);
      }
    }
    assert forall x :: IsActive(t', x) ==> IsActive(t, x);
  }

  // Whole runs

  predicate IsEvent(e: Event) {
    forall tv <- e.polls :: IsReading(tv)
  }

  /** The blocks and UUIDs of a history together with those still to come. */
  ghost predicate Leads(t: Traced, es: seq<Event>, blocks: seq<Block>, outs: seq<Packed>) {
    && t.blocks + Run(t.sys.clock, t.epoch, ClockRequests(t.sys, es)) == blocks
    && t.outs + Outputs(t.sys, es) == outs
  }

  lemma {:induction false} RunUnfolds(sys: System, es: seq<Event>, sys': System, out: seq<Packed>)
    requires es != [] && SystemStep(sys, es[0]) == (sys', out)
    ensures Outputs(sys, es) == out + Outputs(sys', es[1..])
    ensures ClockRequests(sys, es) == Asked(sys, es[0]) + ClockRequests(sys', es[1..])
  {
  }

  lemma {:induction false} LeadsOn(t: Traced, es: seq<Event>, blocks: seq<Block>, outs: seq<Packed>,
                t': Traced, rest: seq<Event>, bs: seq<Block>, out: seq<Packed>)
    requires Leads(t, es, blocks, outs)
    requires t'.outs == t.outs + out && Outputs(t.sys, es) == out + Outputs(t'.sys, rest)
    requires t'.blocks == t.blocks + bs
    requires Run(t.sys.clock, t.epoch, ClockRequests(t.sys, es)) ==
             bs + Run(t'.sys.clock, t'.epoch, ClockRequests(t'.sys, rest))
    ensures Leads(t', rest, blocks, outs)
  {
    Associative(t.outs, out, Outputs(t'.sys, rest));
    Associative(t.blocks, bs, Run(t'.sys.clock, t'.epoch, ClockRequests(t'.sys, rest)));
  }

  /** One call: the history keeps its invariant and grows by what the call hands
      out and by what the clock grants, which `rs` further requests build upon. */
  lemma {:induction false} TraceOne(t: Traced, e: Event, rs: seq<Request>) returns (t': Traced, bs: seq<Block>)
    requires Inv(t) && IsEvent(e) && IsGenerous(e)
    requires forall b <- Granted(t.sys.clock, t.epoch, RequestOf(e)) :: UsesCache(t.sys, e) || InRange(b)
    ensures Inv(t') && t'.sys == SystemStep(t.sys, e).0
    ensures t'.outs == t.outs + SystemStep(t.sys, e).1 && t'.blocks == t.blocks + bs
    ensures Run(t.sys.clock, t.epoch, Asked(t.sys, e) + rs) == bs + Run(t'.sys.clock, t'.epoch, rs)
  {
    if UsesCache(t.sys, e) {
      bs := [];
      t' := HandOut(t, e);
      assert Asked(t.sys, e) + rs == rs;
    } else {
      RunCons(t.sys.clock, t.epoch, RequestOf(e), rs);
      bs := Granted(t.sys.clock, t.epoch, RequestOf(e));
      if bs == [] {
        t' := t;
      } else if e.answer.Lost? {
        t' := Waste(t, e, bs[0]);
      } else {
        t' := Refill(t, e, bs[0]);
      }
    }
  }

  lemma {:induction false} GrantedLead(t: Traced, es: seq<Event>, blocks: seq<Block>, outs: seq<Packed>, b: Block)
    requires es != [] && Leads(t, es, blocks, outs) && !UsesCache(t.sys, es[0])
    requires b in Granted(t.sys.clock, t.epoch, RequestOf(es[0]))
    ensures b in blocks
  {
    var rs := ClockRequests(SystemStep(t.sys, es[0]).0, es[1..]);
    RunCons(t.sys.clock, t.epoch, RequestOf(es[0]), rs);
    assert b in Run(t.sys.clock, t.epoch, ClockRequests(t.sys, es));
  }

  /** Along every run there is a history that accounts for every UUID handed out,
      and its blocks are those of the clock's own run. */
  lemma {:induction false} TraceRun(t: Traced, es: seq<Event>, blocks: seq<Block>, outs: seq<Packed>)
    returns (t': Traced)
    requires Inv(t) && Leads(t, es, blocks, outs)
    requires forall e <- es :: IsEvent(e) && IsGenerous(e)
    requires forall b <- blocks :: InRange(b)
    ensures Inv(t') && t'.outs == outs && t'.blocks == blocks
    decreases |es|
  {
    if es == [] {
      t' := t;
    } else {
      forall b | b in Granted(t.sys.clock, t.epoch, RequestOf(es[0])) && !UsesCache(t.sys, es[0]) ensures InRange(b) {
        GrantedLead(t, es, blocks, outs, b);
      }
      var (sys, out) := SystemStep(t.sys, es[0]);
      RunUnfolds(t.sys, es, sys, out);
      var t1, bs := TraceOne(t, es[0], ClockRequests(sys, es[1..]));
      LeadsOn(t, es, blocks, outs, t1, es[1..], bs, out);
      t' := TraceRun(t1, es[1..], blocks, outs);
    }
  }

  predicate IsProper(r: Request, bulk: bool) {
    IsRequest(r) && (bulk ==> r.num > 1)
  }

  lemma {:induction false} RequestsAreProper(sys: System, es: seq<Event>, bulk: bool)
    requires forall e <- es :: IsProper(RequestOf(e), bulk)
    ensures forall r <- ClockRequests(sys, es) :: IsProper(r, bulk)
    decreases |es|
  {
    if es != [] {
      var (sys', out) := SystemStep(sys, es[0]);
      RunUnfolds(sys, es, sys', out);
      RequestsAreProper(sys', es[1..], bulk);
      AppendProper(Asked(sys, es[0]), ClockRequests(sys', es[1..]), bulk);
    }
  }

  lemma AppendProper(a: seq<Request>, b: seq<Request>, bulk: bool)
    requires (forall r <- a :: IsProper(r, bulk)) && (forall r <- b :: IsProper(r, bulk))
    ensures forall r <- a + b :: IsProper(r, bulk)
  {
  }

  /** Different ticks of one block, and ticks of disjoint blocks, give different UUIDs. */
  lemma TagsSeparate(bs: seq<Block>, nodes: seq<Node>, x: Tag, y: Tag)
    requires AllDisjoint(bs) && |nodes| == |bs| && x != y && x.block < |bs| && y.block < |bs|
    requires x.offset < bs[x.block].len && y.offset < bs[y.block].len && InRange(bs[x.block]) && InRange(bs[y.block])
    ensures Wire(UuidAt(bs[x.block], x.offset, nodes[x.block])) != Wire(UuidAt(bs[y.block], y.offset, nodes[y.block]))
  {
    var c, d := bs[x.block], bs[y.block];
    var tx, ty := c.start + x.offset, d.start + y.offset;
    if x.block != y.block {
      DisjointBlocks(bs, x.block, y.block, tx);
    }
    SmallRegister(tx);
    SmallRegister(ty);
    StampsDiffer(Register(tx), c.clockSeq, nodes[x.block], Register(ty), d.clockSeq, nodes[y.block]);
  }

  lemma DisjointBlocks(bs: seq<Block>, i: nat, j: nat, tick: int)
    requires AllDisjoint(bs) && i < |bs| && j < |bs| && i != j
    ensures !(Holds(bs[i], tick, bs[i].clockSeq) && Holds(bs[j], tick, bs[i].clockSeq))
  {
    if i < j {
      assert !(Holds(bs[i], tick, bs[i].clockSeq) && Holds(bs[j], tick, bs[i].clockSeq));
    } else {
      assert !(Holds(bs[j], tick, bs[i].clockSeq) && Holds(bs[i], tick, bs[i].clockSeq));
    }
  }

  lemma HistoryHasNoRepeats(t: Traced, i: nat, j: nat)
    requires TagsAreRight(t) && TagsAreDistinct(t) && (forall b <- t.blocks :: InRange(b)) && AllDisjoint(t.blocks)
    requires i < j < |t.outs|
    ensures t.outs[i] != t.outs[j]
  {
    TagsSeparate(t.blocks, t.nodes, t.tags[i], t.tags[j]);
  }

  /** Whatever makes the blocks of the clock disjoint makes the UUIDs different. */
  lemma {:induction false} HandsOutOnce(sys: System, es: seq<Event>)
    requires WellFormed(sys.clock) && NothingCached(sys)
    requires forall e <- es :: IsEvent(e) && IsGenerous(e)
    requires AllDisjoint(Run(sys.clock, 0, ClockRequests(sys, es)))
    requires forall b <- Run(sys.clock, 0, ClockRequests(sys, es)) :: InRange(b)
    ensures AllDifferent(Outputs(sys, es))
  {
    var t := Traced(sys, 0, [], [], map[], [], []);
    var blocks, outs := Run(sys.clock, 0, ClockRequests(sys, es)), Outputs(sys, es);
    var t' := TraceRun(t, es, blocks, outs);
    forall i, j | 0 <= i < j < |outs| ensures outs[i] != outs[j] {
      HistoryHasNoRepeats(t', i, j);
    }
  }

  /** For any number of threads and any interleaving of refills, hand-outs,
      expired caches, lost answers and fallbacks, no UUID is handed out twice,
      provided that the daemon grants at least 1000 timestamps at a time, no clock
      request collides, the time goes back fewer than 2^14 times, and the
      timestamps fit 60 bits. Calls of get_clock do not overlap; the lock on the
      state file sees to that between processes, but not between the threads of
      one (see ClockHalves). */
  lemma {:induction false} NeverHandedOutTwice(sys: System, es: seq<Event>)
    requires WellFormed(sys.clock) && NothingCached(sys)
    requires forall e <- es :: IsEvent(e) && IsGenerous(e)
    requires CollisionFree(sys.clock, ClockRequests(sys, es))
    requires BackwardSteps(sys.clock, ClockRequests(sys, es)) < SEQUENCES
    requires forall b <- Run(sys.clock, 0, ClockRequests(sys, es)) :: InRange(b)
    ensures AllDifferent(Outputs(sys, es))
  {
    RequestsAreProper(sys, es, false);
    BlocksAreDisjoint(sys.clock, 0, ClockRequests(sys, es));
    HandsOutOnce(sys, es);
  }

  /** If the daemon serves every refill there is nothing to assume about
      collisions: bulk requests have none. */
  lemma {:induction false} DaemonNeverHandsOutTwice(sys: System, es: seq<Event>)
    requires WellFormed(sys.clock) && !CanCollide(sys.clock)
    requires NothingCached(sys)
    requires forall e <- es :: IsEvent(e) && e.answer.Served? && IsGenerous(e)
    requires BackwardSteps(sys.clock, ClockRequests(sys, es)) < SEQUENCES
    requires forall b <- Run(sys.clock, 0, ClockRequests(sys, es)) :: InRange(b)
    ensures AllDifferent(Outputs(sys, es))
  {
    RequestsAreProper(sys, es, true);
    BulkNeverCollides(sys.clock, ClockRequests(sys, es));
    NeverHandedOutTwice(sys, es);
  }

  /** On a clock that keeps up with the refills, runs may be of any length and the
      refills as close together as they like. */
  lemma {:induction false} BusyDaemonNeverHandsOutTwice(sys: System, es: seq<Event>)
    requires WellFormed(sys.clock) && !CanCollide(sys.clock)
    requires NothingCached(sys)
    requires forall e <- es :: IsEvent(e) && e.answer.Served? && IsGenerous(e)
    requires KeepsUp(Serves(sys.clock, ClockRequests(sys, es)))
    requires forall b <- Run(sys.clock, 0, ClockRequests(sys, es)) :: InRange(b)
    ensures AllDifferent(Outputs(sys, es))
  {
    RequestsAreProper(sys, es, true);
    BulkNeverCollides(sys.clock, ClockRequests(sys, es));
    SteadyRunIsUnique(sys.clock, 0, ClockRequests(sys, es));
    HandsOutOnce(sys, es);
  }

  // What the daemon must grant

  /** `k` calls in a row that a thread serves from its cache. */
  function Draws(client: nat, node: Node, k: nat): seq<Event> {
    if k == 0 then [] else [Event(client, 0, 0, Silent, node, [])] + Draws(client, node, k - 1)
  }

  /** They hand out the following timestamps, reserved or not, and ask nobody. */
  lemma {:induction false} DrawsHandOut(sys: System, client: nat, c: Cache, node: Node, k: nat)
    requires client in sys.caches && sys.caches[client] == c && k <= c.num && 0 <= c.lastTime + 1
    ensures var outs := Outputs(sys, Draws(client, node, k));
            |outs| == k && (k > 0 ==> outs[k - 1] == Wire(NextBy(c.uu, k)))
    ensures ClockRequests(sys, Draws(client, node, k)) == []
    decreases k
  {
    if k > 0 {
      var es, uu := Draws(client, node, k), NextBy(c.uu, 1);
      var sys' := DrawStep(sys, es[0], c, uu);
      assert es[1..] == Draws(client, node, k - 1);
      DrawsHandOut(sys', client, Cache(c.num - 1, uu, c.lastTime), node, k - 1);
      NextByAdds(c.uu, k - 1);
      DrawsUnfold(sys, es, sys', Wire(uu));
    }
  }

  lemma {:induction false} DrawsUnfold(sys: System, es: seq<Event>, sys': System, out: Packed)
    requires es != [] && SystemStep(sys, es[0]) == (sys', [out]) && Asked(sys, es[0]) == []
    requires ClockRequests(sys', es[1..]) == []
    ensures Outputs(sys, es) == [out] + Outputs(sys', es[1..]) && ClockRequests(sys, es) == []
  {
    RunUnfolds(sys, es, sys', [out]);
  }

  lemma {:induction false} NextByAdds(uu: Uuid, k: nat)
    ensures NextBy(NextBy(uu, 1), k) == NextBy(uu, k + 1)
  {
    if k > 0 {
      NextByAdds(uu, k - 1);
    }
  }

  lemma DrawStep(sys: System, e: Event, c: Cache, uu: Uuid) returns (sys': System)
    requires e.client in sys.caches && sys.caches[e.client] == c && c.num > 0 && e.now <= c.lastTime + 1
    requires uu == NextBy(c.uu, 1)
    ensures sys' == sys.(caches := sys.caches[e.client := Cache(c.num - 1, uu, c.lastTime)])
    ensures SystemStep(sys, e) == (sys', [Wire(uu)]) && Asked(sys, e) == []
  {
    HandOutEffect(sys, e, uu);
    sys' := sys.(caches := sys.caches[e.client := Cache(c.num - 1, uu, c.lastTime)]);
  }

  /** A run in which every answer of the daemon stands for `g` reserved timestamps. */
  ghost predicate IsGrantRun(sys: System, es: seq<Event>, g: int) {
    && WellFormed(sys.clock) && NothingCached(sys)
    && (forall e <- es :: IsEvent(e) && (e.answer.Served? ==> e.answer.grant == g))
    && CollisionFree(sys.clock, ClockRequests(sys, es))
    && BackwardSteps(sys.clock, ClockRequests(sys, es)) < SEQUENCES
    && forall b <- Run(sys.clock, 0, ClockRequests(sys, es)) :: InRange(b)
  }

  /** Two refills, the second one reading the time that the first one left behind,
      take adjacent blocks. */
  lemma AdjacentGrants(s: State, g: int, tv: TimeVal) returns (r1: Request, r2: Request, b1: Block, b2: Block)
    requires WellFormed(s) && IsReading(tv) && tv.sec == s.last.sec + 2
    ensures r1 == Request([tv], g) && r2.num == g && IsRequest(r2)
    ensures Granted(s, 0, r1) == [b1] && Granted(Step(s, r1), 0, r2) == [b2]
    ensures b1 == Block(TickOf(tv, 0), Count(g), s.clockSeq, 0)
    ensures b2 == Block(TickOf(tv, 0) + Count(g), Count(g), s.clockSeq, 0)
    ensures CollisionFree(s, [r1, r2]) && BackwardSteps(s, [r1, r2]) == 0 && Run(s, 0, [r1, r2]) == [b1, b2]
  {
    r1 := Request([tv], g);
    var s1 := Step(s, r1);
    assert Accepted(s, r1.polls) == Some(tv);
    ReserveCountsTicks(Advance(s, tv), g);
    r2 := Request([s1.last], g);
    assert s1.adj < MAX_ADJUSTMENT && Accepted(s1, r2.polls) == Some(s1.last);
    GrantIsExact(s, 0, r1, tv);
    GrantIsExact(s1, 0, r2, s1.last);
    b1, b2 := Granted(s, 0, r1)[0], Granted(s1, 0, r2)[0];
    assert [r1, r2] == [r1] + [r2] && [r2] == [r2] + [];
    assert [r1, r2][1..] == [r2] && [r2][1..] == [];
    RunCons(s, 0, r1, [r2]);
    RunCons(s1, 0, r2, []);
    assert CollisionFree(s1, [r2]);
  }

  /** The system after a refill by a thread with nothing cached. */
  lemma RefillOf(sys: System, e: Event, b: Block) returns (sys': System)
    requires CacheOf(sys, e.client).num <= 0 && e.answer.Served? && Granted(sys.clock, 0, RequestOf(e)) == [b]
    ensures sys' == System(Step(sys.clock, RequestOf(e)),
                           sys.caches[e.client := Cache(BULK - 1, UuidAt(b, 0, e.node), e.nowAfter)])
    ensures SystemStep(sys, e) == (sys', [Wire(UuidAt(b, 0, e.node))]) && Asked(sys, e) == [RequestOf(e)]
  {
    var c := Cache(BULK - 1, UuidAt(b, 0, e.node), e.nowAfter);
    RefillEffect(sys, 0, e, b, c.uu, c);
    sys' := System(Step(sys.clock, RequestOf(e)), sys.caches[e.client := c]);
  }

  /** If the daemon grants less than 1000 timestamps, a UUID is soon handed out twice:
      one thread refills, another one refills, and the first one goes on to hand out
      what it was never granted. */
  lemma {:induction false} ShortGrantRepeats(sys: System, g: int, node: Node) returns (es: seq<Event>)
    requires WellFormed(sys.clock) && NothingCached(sys) && g < BULK
    requires 0 <= sys.clock.last.sec && (sys.clock.last.sec + 3) * TICKS_PER_SECOND + OFFSET < TWO60
    ensures IsGrantRun(sys, es, g) && !AllDifferent(Outputs(sys, es))
  {
    var k, tv := Count(g), TimeVal(sys.clock.last.sec + 2, 0);
    var r1, r2, b1, b2 := AdjacentGrants(sys.clock, g, tv);
    var e1, e2 := Event(0, 0, 0, Served(g), node, r1.polls), Event(1, 0, 0, Served(g), node, r2.polls);
    es := [e1, e2] + Draws(0, node, k);
    Overdraw(sys, e1, e2, b1, b2, k);
    DrawsAreEvents(0, node, k, g);
    TwoGrantRun(sys, es, g, r1, r2, b1, b2);
  }

  lemma {:induction false} TwoGrantRun(sys: System, es: seq<Event>, g: int, r1: Request, r2: Request, b1: Block,
                                       b2: Block)
    requires WellFormed(sys.clock) && NothingCached(sys) && ClockRequests(sys, es) == [r1, r2]
    requires forall e <- es :: IsEvent(e) && (e.answer.Served? ==> e.answer.grant == g)
    requires CollisionFree(sys.clock, [r1, r2]) && BackwardSteps(sys.clock, [r1, r2]) == 0
    requires Run(sys.clock, 0, [r1, r2]) == [b1, b2] && InRange(b1) && InRange(b2)
    ensures IsGrantRun(sys, es, g)
  {
  }

  /** The draw after the last timestamp of the first block is the first of the second. */
  lemma {:induction false} Overdraw(sys: System, e1: Event, e2: Event, b1: Block, b2: Block, k: nat)
    requires NothingCached(sys) && e1.client == 0 && e2.client == 1 && e1.node == e2.node && 0 < k < BULK
    requires e1.answer.Served? && e2.answer.Served? && e1.nowAfter == 0
    requires Granted(sys.clock, 0, RequestOf(e1)) == [b1]
    requires Granted(Step(sys.clock, RequestOf(e1)), 0, RequestOf(e2)) == [b2]
    requires 0 <= b1.start && b2.start == b1.start + k && b2.start + OFFSET < TWO60 && b1.clockSeq == b2.clockSeq
    ensures var es := [e1, e2] + Draws(0, e1.node, k);
            !AllDifferent(Outputs(sys, es)) && ClockRequests(sys, es) == [RequestOf(e1), RequestOf(e2)]
  {
    var draws := Draws(0, e1.node, k);
    var u1, u2 := Wire(UuidAt(b1, 0, e1.node)), Wire(UuidAt(b2, 0, e1.node));
    var sys1 := RefillOf(sys, e1, b1);
    var sys2 := RefillOf(sys1, e2, b2);
    BlockDraws(sys2, 0, b1, b2, e1.node, k);
    TwoRefills(sys, e1, e2, draws, sys1, sys2, u1, u2);
    Repeats([u1, u2], Outputs(sys2, draws), k);
  }

  lemma BlockDraws(sys: System, client: nat, b1: Block, b2: Block, node: Node, k: nat)
    requires client in sys.caches && sys.caches[client] == Cache(BULK - 1, UuidAt(b1, 0, node), 0) && 0 < k < BULK
    requires 0 <= b1.start && b2.start == b1.start + k && b2.start + OFFSET < TWO60 && b1.clockSeq == b2.clockSeq
    ensures var outs := Outputs(sys, Draws(client, node, k));
            |outs| == k && outs[k - 1] == Wire(UuidAt(b2, 0, node))
    ensures ClockRequests(sys, Draws(client, node, k)) == []
  {
    PastTheBlock(b1, b2, node, k);
    DrawsHandOut(sys, client, sys.caches[client], node, k);
  }

  lemma PastTheBlock(b1: Block, b2: Block, node: Node, k: nat)
    requires 0 <= b1.start && b2.start == b1.start + k && b2.start + OFFSET < TWO60 && b1.clockSeq == b2.clockSeq
    ensures NextBy(UuidAt(b1, 0, node), k) == UuidAt(b2, 0, node)
  {
    SmallRegister(b1.start);
    SmallRegister(b2.start);
    NextWalksTheBlock(b1.start + OFFSET, b1.clockSeq, node, k);
  }

  lemma Repeats(front: seq<Packed>, back: seq<Packed>, k: nat)
    requires |front| == 2 && 0 < k <= |back| && back[k - 1] == front[1]
    ensures !AllDifferent(front + back)
  {
    assert (front + back)[1] == (front + back)[k + 1];
  }

  lemma {:induction false} TwoRefills(sys: System, e1: Event, e2: Event, es: seq<Event>, sys1: System, sys2: System,
                                      u1: Packed, u2: Packed)
    requires SystemStep(sys, e1) == (sys1, [u1]) && SystemStep(sys1, e2) == (sys2, [u2])
    requires Asked(sys, e1) == [RequestOf(e1)] && Asked(sys1, e2) == [RequestOf(e2)] && ClockRequests(sys2, es) == []
    ensures Outputs(sys, [e1, e2] + es) == [u1, u2] + Outputs(sys2, es)
    ensures ClockRequests(sys, [e1, e2] + es) == [RequestOf(e1), RequestOf(e2)]
  {
    var all := [e1, e2] + es;
    assert all[1..] == [e2] + es && ([e2] + es)[1..] == es;
    RunUnfolds(sys, all, sys1, [u1]);
    RunUnfolds(sys1, [e2] + es, sys2, [u2]);
  }

  lemma {:induction false} DrawsAreEvents(client: nat, node: Node, k: nat, g: int)
    ensures forall e <- Draws(client, node, k) :: IsEvent(e) && (e.answer.Served? ==> e.answer.grant == g)
  {
    if k > 0 {
      DrawsAreEvents(client, node, k - 1, g);
    }
  }

  const NOBODY: Node := [0, 0, 0, 0, 0, 0]

  /** Threads believe that every answer of the daemon stands for 1000 timestamps.
      For every number `g` that it really reserves: no run hands out a UUID twice
      if and only if `g` is at least 1000. */
  lemma {:induction false} GrantIsEnoughIff(g: int)
    ensures (forall sys, es | IsGrantRun(sys, es, g) :: AllDifferent(Outputs(sys, es))) <==> g >= 1000
  {
    if g >= BULK {
      forall sys, es | IsGrantRun(sys, es, g) ensures AllDifferent(Outputs(sys, es)) {
        NeverHandedOutTwice(sys, es);
      }
    } else {
      var sys := System(State(TimeVal(0, 0), 0, 0), map[]);
      var es := ShortGrantRepeats(sys, g, NOBODY);
    }
  }

  // Without the daemon

  /** Without a daemon and with nothing cached, every call takes one tick from the
      clock, and nothing gets cached. */
  lemma UncachedStep(sys: System, epoch: nat, e: Event)
    requires NothingCached(sys) && e.answer.Silent?
    ensures !UsesCache(sys, e) && NothingCached(SystemStep(sys, e).0)
    ensures SystemStep(sys, e).0.clock == Step(sys.clock, RequestOf(e))
    ensures var bs := Granted(sys.clock, epoch, RequestOf(e));
            if bs == [] then SystemStep(sys, e).1 == []
            else bs[0].len == 1 && SystemStep(sys, e).1 == [Wire(UuidAt(bs[0], 0, e.node))]
  {
    var bs := Granted(sys.clock, epoch, RequestOf(e));
    if bs != [] {
      var b := bs[0];
      var c := Aged(CacheOf(sys, e.client), e.now).(num := 0);
      RefillEffect(sys, epoch, e, b, UuidAt(b, 0, e.node), c);
    } else {
      assert Granted(sys.clock, 0, RequestOf(e)) == [];
    }
  }

  /** The UUIDs of the first ticks of the blocks. */
  ghost function FirstUuids(bs: seq<Block>, node: Node): seq<Packed> {
    seq(|bs|, i requires 0 <= i < |bs| => Wire(UuidAt(bs[i], 0, node)))
  }

  lemma {:induction false} OutputsAreBlocks(sys: System, epoch: nat, es: seq<Event>, node: Node)
    requires NothingCached(sys) && forall e <- es :: e.answer.Silent? && e.node == node
    ensures var bs := Run(sys.clock, epoch, ClockRequests(sys, es));
            Outputs(sys, es) == FirstUuids(bs, node) && forall b <- bs :: b.len == 1
    decreases |es|
  {
    if es != [] {
      var e := es[0];
      var (sys', out) := SystemStep(sys, e);
      var rs := ClockRequests(sys', es[1..]);
      var bs, epoch' := Granted(sys.clock, epoch, RequestOf(e)), NextEpoch(sys.clock, epoch, RequestOf(e));
      UncachedStep(sys, epoch, e);
      RunUnfolds(sys, es, sys', out);
      RunCons(sys.clock, epoch, RequestOf(e), rs);
      OutputsAreBlocks(sys', epoch', es[1..], node);
      FirstUuidsCons(bs, Run(sys'.clock, epoch', rs), node, out);
    }
  }

  lemma FirstUuidsCons(bs: seq<Block>, rest: seq<Block>, node: Node, out: seq<Packed>)
    requires if bs == [] then out == [] else |bs| == 1 && out == [Wire(UuidAt(bs[0], 0, node))]
    ensures FirstUuids(bs + rest, node) == out + FirstUuids(rest, node)
  {
  }

  lemma OverlapRepeats(bs: seq<Block>, node: Node)
    requires (forall b <- bs :: b.len == 1) && !AllDisjoint(bs)
    ensures !AllDifferent(FirstUuids(bs, node))
  {
    var i, j, tick, clockSeq :| 0 <= i < j < |bs| && Holds(bs[i], tick, clockSeq) && Holds(bs[j], tick, clockSeq);
    assert bs[i] in bs && bs[j] in bs;
    assert UuidAt(bs[i], 0, node) == UuidAt(bs[j], 0, node);
    assert FirstUuids(bs, node)[i] == FirstUuids(bs, node)[j];
  }

  /** On a host where no daemon answers, all UUIDs of a run are different if and
      only if no clock request collides. Again, calls of get_clock do not overlap,
      which the lock ensures only between processes (see ClockHalves). */
  lemma {:induction false} WithoutDaemonUniqueIff(sys: System, es: seq<Event>, node: Node)
    requires WellFormed(sys.clock) && sys.clock.adj < MAX_ADJUSTMENT && NothingCached(sys)
    requires forall e <- es :: IsEvent(e) && e.answer.Silent? && e.node == node
    requires BackwardSteps(sys.clock, ClockRequests(sys, es)) < SEQUENCES
    requires forall b <- Run(sys.clock, 0, ClockRequests(sys, es)) :: InRange(b)
    ensures AllDifferent(Outputs(sys, es)) <==> CollisionFree(sys.clock, ClockRequests(sys, es))
  {
    if CollisionFree(sys.clock, ClockRequests(sys, es)) {
      NeverHandedOutTwice(sys, es);
    } else {
      RequestsAreProper(sys, es, false);
      FreshRunIsUniqueIff(sys.clock, 0, ClockRequests(sys, es));
      OutputsAreBlocks(sys, 0, es, node);
      OverlapRepeats(Run(sys.clock, 0, ClockRequests(sys, es)), node);
    }
  }

  // How long a cache lasts

  /** A call hands out the next cached timestamp if and only if there is one left and the
      cache is at most a second old; otherwise an answer of the daemon is handed out and
      999 more are cached as of now, or the cache is emptied and the clock's own
      UUID handed out. */
  lemma CallServesFromCacheIff(c: Cache, now: int, reply: Option<Packed>, nowAfter: int, own: Packed)
    ensures var (c', out) := Generate(c, now, reply, nowAfter, own);
            if c.num > 0 && now <= c.lastTime + 1 then
              c' == Cache(c.num - 1, Next(c.uu), c.lastTime) && out == Wire(Next(c.uu))
            else if reply.Some? then c' == Cache(999, Fields(reply.value), nowAfter) && out == reply.value
            else c' == Cache(0, c.uu, c.lastTime) && out == own
  {
  }

  ghost function AfterRun(sys: System, es: seq<Event>): System
    decreases |es|
  {
    if es == [] then sys else AfterRun(SystemStep(sys, es[0]).0, es[1..])
  }

  lemma {:induction false} AfterSnoc(sys: System, es: seq<Event>, e: Event)
    ensures AfterRun(sys, es + [e]) == SystemStep(AfterRun(sys, es), e).0
    decreases |es|
  {
    var all := es + [e];
    if es == [] {
      assert all == [e] && [e][1..] == [];
    } else {
      assert all[0] == es[0] && all[1..] == es[1..] + [e];
      AfterSnoc(SystemStep(sys, es[0]).0, es[1..], e);
    }
  }

  /** What a call leaves in the caches: those of other threads as they were, and its own
      with timestamps only if it drew from it or refilled it. */
  lemma StepCaches(sys: System, e: Event, client: nat)
    ensures var c, c' := CacheOf(sys, client), CacheOf(SystemStep(sys, e).0, client);
            && (client != e.client ==> c' == c)
            && (client == e.client && c'.num > 0 ==>
                  || c' == c
                  || (UsesCache(sys, e) && c'.lastTime == c.lastTime && c.num > 0)
                  || (!UsesCache(sys, e) && e.answer.Served? && c'.lastTime == e.nowAfter))
  {
    if UsesCache(sys, e) {
      HandOutEffect(sys, e, Next(CacheOf(sys, e.client).uu));
    }
  }

  /** The refill that a cache with timestamps left goes back to. */
  lemma {:induction false} CacheWasRefilled(sys: System, es: seq<Event>, client: nat) returns (i: nat)
    requires NothingCached(sys) && CacheOf(AfterRun(sys, es), client).num > 0
    ensures i < |es| && es[i].client == client && es[i].answer.Served?
    ensures !UsesCache(AfterRun(sys, es[..i]), es[i])
    ensures es[i].nowAfter == CacheOf(AfterRun(sys, es), client).lastTime
    decreases |es|
  {
    assert es != [];
    var init, e := es[..|es| - 1], es[|es| - 1];
    assert es == init + [e];
    AfterSnoc(sys, init, e);
    StepCaches(AfterRun(sys, init), e, client);
    if e.client == client && !UsesCache(AfterRun(sys, init), e) && e.answer.Served?
       && e.nowAfter == CacheOf(AfterRun(sys, es), client).lastTime {
      i := |es| - 1;
    } else {
      i := CacheWasRefilled(sys, init, client);
      assert es[..i] == init[..i];
    }
  }

  /** In every run, a UUID drawn from a cache is drawn no later than a second after the
      refill that reserved it, by the same thread. */
  lemma {:induction false} DrawnWithinASecond(sys: System, es: seq<Event>, j: nat) returns (i: nat)
    requires NothingCached(sys) && j < |es| && UsesCache(AfterRun(sys, es[..j]), es[j])
    ensures i < j && es[i].client == es[j].client && es[i].answer.Served?
    ensures !UsesCache(AfterRun(sys, es[..i]), es[i]) && es[j].now <= es[i].nowAfter + 1
  {
    i := CacheWasRefilled(sys, es[..j], es[j].client);
    assert es[..j][..i] == es[..i];
  }

  /** The calls of one thread in a run. */
  function CallsBy(es: seq<Event>, client: nat): nat {
    if es == [] then 0 else (if es[0].client == client then 1 else 0) + CallsBy(es[1..], client)
  }

  /** A cache runs down by one timestamp for every call of its thread that comes in
      time, whatever the other threads do. */
  lemma {:induction false} CacheRunsDown(sys: System, client: nat, c: Cache, es: seq<Event>)
    requires client in sys.caches && sys.caches[client] == c && CallsBy(es, client) <= c.num
    requires forall e <- es :: e.client == client ==> e.now <= c.lastTime + 1
    ensures CacheOf(AfterRun(sys, es), client) ==
            Cache(c.num - CallsBy(es, client), NextBy(c.uu, CallsBy(es, client)), c.lastTime)
    decreases |es|
  {
    if es != [] {
      var e, sys' := es[0], SystemStep(sys, es[0]).0;
      if e.client == client {
        var uu := NextBy(c.uu, 1);
        var sys1 := DrawStep(sys, e, c, uu);
        CacheRunsDown(sys1, client, Cache(c.num - 1, uu, c.lastTime), es[1..]);
        NextByAdds(c.uu, CallsBy(es[1..], client));
      } else {
        StepCaches(sys, e, client);
        StepKeepsClients(sys, e, client);
        CacheRunsDown(sys', client, c, es[1..]);
      }
    }
  }

  lemma StepKeepsClients(sys: System, e: Event, client: nat)
    requires client in sys.caches
    ensures client in SystemStep(sys, e).0.caches
  {
  }

  /** After a refill and any run in which the thread calls in time and has not used it up,
      its next call is served from the cache if and only if fewer than 999 calls have
      been and the refill is at most a second ago. */
  lemma {:induction false} RefillLastsIff(sys: System, refill: Event, b: Block, es: seq<Event>, e: Event)
    requires !UsesCache(sys, refill) && refill.answer.Served? && Granted(sys.clock, 0, RequestOf(refill)) == [b]
    requires e.client == refill.client && CallsBy(es, e.client) <= 999
    requires forall x <- es :: x.client == e.client ==> x.now <= refill.nowAfter + 1
    ensures UsesCache(AfterRun(SystemStep(sys, refill).0, es), e) <==>
            CallsBy(es, e.client) < 999 && e.now <= refill.nowAfter + 1
  {
    var c := Cache(BULK - 1, UuidAt(b, 0, refill.node), refill.nowAfter);
    RefillEffect(sys, 0, refill, b, c.uu, c);
    CacheRunsDown(SystemStep(sys, refill).0, e.client, c, es);
  }
}
