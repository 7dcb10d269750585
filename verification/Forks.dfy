/** Processes that fork. The child gets a copy of the caches of its parent, reserved
    timestamps included, and nothing in the code notices. */
module Forks {
  import opened Bytes
  import opened UuidLayout
  import opened UuidTime
  import opened Clock
  import opened TimeClients

  /** A call of uuid_generate_time, or a fork that leaves a thread of the child with the
      cache of the thread that forked. */
  datatype Act = Calls(event: Event) | Forks(parent: nat, child: nat)

  ghost function ActStep(sys: System, a: Act): (System, seq<Packed>) {
    match a
    case Calls(e) => SystemStep(sys, e)
    case Forks(p, c) => (sys.(caches := sys.caches[c := CacheOf(sys, p)]), [])
  }

  function ActAsks(sys: System, a: Act): seq<Request> {
    match a
    case Calls(e) => Asked(sys, e)
    case Forks(_, _) => []
  }

  ghost function ActOutputs(sys: System, acts: seq<Act>): seq<Packed>
    decreases |acts|
  {
    if acts == [] then [] else ActStep(sys, acts[0]).1 + ActOutputs(ActStep(sys, acts[0]).0, acts[1..])
  }

  ghost function ActRequests(sys: System, acts: seq<Act>): seq<Request>
    decreases |acts|
  {
    if acts == [] then [] else ActAsks(sys, acts[0]) + ActRequests(ActStep(sys, acts[0]).0, acts[1..])
  }

  ghost function After(sys: System, acts: seq<Act>): System
    decreases |acts|
  {
    if acts == [] then sys else After(ActStep(sys, acts[0]).0, acts[1..])
  }

  /** A fork that copies no cache with timestamps left. */
  predicate IsSafe(sys: System, a: Act) {
    a.Forks? ==> CacheOf(sys, a.parent).num <= 0
  }

  ghost predicate AllSafe(sys: System, acts: seq<Act>)
    decreases |acts|
  {
    acts == [] || (IsSafe(sys, acts[0]) && AllSafe(ActStep(sys, acts[0]).0, acts[1..]))
  }

  predicate IsAct(a: Act) {
    a.Calls? ==> IsEvent(a.event) && IsGenerous(a.event)
  }

  // Forks that copy nothing

  /** Replacing a cache by an empty one keeps the history right. */
  lemma EmptiedInv(t: Traced, client: nat, c: Cache)
    requires Inv(t) && c.num <= 0
    ensures Inv(t.(sys := t.sys.(caches := t.sys.caches[client := c])))
  {
    var t' := t.(sys := t.sys.(caches := t.sys.caches[client := c]));
    forall x | x in t'.sys.caches ensures CacheInvariant(t', x) {
      if x != client {
        assert CacheInvariant(t, x);
      }
    }
    assert forall x :: IsActive(t', x) ==> IsActive(t, x);
  }

  /** The blocks and UUIDs of a history together with those still to come. */
  ghost predicate ActsLead(t: Traced, acts: seq<Act>, blocks: seq<Block>, outs: seq<Packed>) {
    && t.blocks + Run(t.sys.clock, t.epoch, ActRequests(t.sys, acts)) == blocks
    && t.outs + ActOutputs(t.sys, acts) == outs
  }

  /** One act: the history keeps its invariant. */
  lemma {:induction false} TraceAct(t: Traced, a: Act, rs: seq<Request>) returns (t': Traced, bs: seq<Block>)
    requires Inv(t) && IsAct(a) && IsSafe(t.sys, a)
    requires a.Calls? ==>
               forall b <- Granted(t.sys.clock, t.epoch, RequestOf(a.event)) :: UsesCache(t.sys, a.event) || InRange(b)
    ensures Inv(t') && t'.sys == ActStep(t.sys, a).0
    ensures t'.outs == t.outs + ActStep(t.sys, a).1 && t'.blocks == t.blocks + bs
    ensures Run(t.sys.clock, t.epoch, ActAsks(t.sys, a) + rs) == bs + Run(t'.sys.clock, t'.epoch, rs)
  {
    match a
    case Calls(e) => t', bs := TraceOne(t, e, rs);
    case Forks(p, c) =>
      EmptiedInv(t, c, CacheOf(t.sys, p));
      t', bs := t.(sys := t.sys.(caches := t.sys.caches[c := CacheOf(t.sys, p)])), [];
      assert ActAsks(t.sys, a) + rs == rs;
  }

  lemma {:induction false} ActsUnfold(sys: System, acts: seq<Act>, sys': System, out: seq<Packed>)
    requires acts != [] && ActStep(sys, acts[0]) == (sys', out)
    ensures ActOutputs(sys, acts) == out + ActOutputs(sys', acts[1..])
    ensures ActRequests(sys, acts) == ActAsks(sys, acts[0]) + ActRequests(sys', acts[1..])
  {
  }

  lemma {:induction false} ActsLeadOn(t: Traced, acts: seq<Act>, blocks: seq<Block>, outs: seq<Packed>, t': Traced,
                                      bs: seq<Block>, out: seq<Packed>)
    requires acts != [] && ActsLead(t, acts, blocks, outs)
    requires t'.outs == t.outs + out && ActOutputs(t.sys, acts) == out + ActOutputs(t'.sys, acts[1..])
    requires t'.blocks == t.blocks + bs
    requires Run(t.sys.clock, t.epoch, ActRequests(t.sys, acts)) ==
             bs + Run(t'.sys.clock, t'.epoch, ActRequests(t'.sys, acts[1..]))
    ensures ActsLead(t', acts[1..], blocks, outs)
  {
    Associative(t.outs, out, ActOutputs(t'.sys, acts[1..]));
    Associative(t.blocks, bs, Run(t'.sys.clock, t'.epoch, ActRequests(t'.sys, acts[1..])));
  }

  lemma {:induction false} ActGrantLeads(t: Traced, acts: seq<Act>, blocks: seq<Block>, outs: seq<Packed>, b: Block)
    requires acts != [] && acts[0].Calls? && ActsLead(t, acts, blocks, outs) && !UsesCache(t.sys, acts[0].event)
    requires b in Granted(t.sys.clock, t.epoch, RequestOf(acts[0].event))
    ensures b in blocks
  {
    var rs := ActRequests(ActStep(t.sys, acts[0]).0, acts[1..]);
    RunCons(t.sys.clock, t.epoch, RequestOf(acts[0].event), rs);
    assert b in Run(t.sys.clock, t.epoch, ActRequests(t.sys, acts));
  }

  lemma {:induction false} TraceActs(t: Traced, acts: seq<Act>, blocks: seq<Block>, outs: seq<Packed>)
    returns (t': Traced)
    requires Inv(t) && ActsLead(t, acts, blocks, outs) && AllSafe(t.sys, acts)
    requires (forall a <- acts :: IsAct(a)) && (forall b <- blocks :: InRange(b))
    ensures Inv(t') && t'.outs == outs && t'.blocks == blocks
    decreases |acts|
  {
    if acts == [] {
      t' := t;
    } else {
      var a := acts[0];
      if a.Calls? && !UsesCache(t.sys, a.event) {
        forall b | b in Granted(t.sys.clock, t.epoch, RequestOf(a.event)) ensures InRange(b) {
          ActGrantLeads(t, acts, blocks, outs, b);
        }
      }
      var (sys, out) := ActStep(t.sys, a);
      ActsUnfold(t.sys, acts, sys, out);
      var t1, bs := TraceAct(t, a, ActRequests(sys, acts[1..]));
      ActsLeadOn(t, acts, blocks, outs, t1, bs, out);
      t' := TraceActs(t1, acts[1..], blocks, outs);
    }
  }

  /** A run within the conditions of NeverHandedOutTwice. */
  ghost predicate IsTame(sys: System, acts: seq<Act>) {
    && WellFormed(sys.clock) && NothingCached(sys)
    && (forall a <- acts :: IsAct(a))
    && IsTameClock(sys.clock, ActRequests(sys, acts))
  }

  ghost predicate IsTameClock(s: State, rs: seq<Request>) {
    && CollisionFree(s, rs) && BackwardSteps(s, rs) < SEQUENCES
    && forall b <- Run(s, 0, rs) :: InRange(b)
  }

  lemma {:induction false} ActRequestsAreProper(sys: System, acts: seq<Act>)
    requires forall a <- acts :: IsAct(a)
    ensures forall r <- ActRequests(sys, acts) :: IsRequest(r)
    decreases |acts|
  {
    if acts != [] {
      ActRequestsAreProper(ActStep(sys, acts[0]).0, acts[1..]);
      assert IsAct(acts[0]);
    }
  }

  /** If forks copy only caches with nothing left, no UUID is handed out twice. */
  lemma {:induction false} SafeForksNeverRepeat(sys: System, acts: seq<Act>)
    requires IsTame(sys, acts) && AllSafe(sys, acts)
    ensures AllDifferent(ActOutputs(sys, acts))
  {
    var blocks, outs := Run(sys.clock, 0, ActRequests(sys, acts)), ActOutputs(sys, acts);
    var t := TraceActs(Traced(sys, 0, [], [], map[], [], []), acts, blocks, outs);
    ActRequestsAreProper(sys, acts);
    BlocksAreDisjoint(sys.clock, 0, ActRequests(sys, acts));
    forall i, j | 0 <= i < j < |outs| ensures outs[i] != outs[j] {
      HistoryHasNoRepeats(t, i, j);
    }
  }

  // Forks that copy a cache in use

  lemma {:induction false} ActsAppend(sys: System, acts: seq<Act>, more: seq<Act>)
    ensures ActOutputs(sys, acts + more) == ActOutputs(sys, acts) + ActOutputs(After(sys, acts), more)
    ensures ActRequests(sys, acts + more) == ActRequests(sys, acts) + ActRequests(After(sys, acts), more)
    ensures AllSafe(sys, acts + more) <==> AllSafe(sys, acts) && AllSafe(After(sys, acts), more)
    decreases |acts|
  {
    if acts == [] {
      assert acts + more == more;
    } else {
      var (sys', out) := ActStep(sys, acts[0]);
      assert (acts + more)[0] == acts[0] && (acts + more)[1..] == acts[1..] + more;
      ActsAppend(sys', acts[1..], more);
      ActsUnfold(sys, acts, sys', out);
      ActsUnfold(sys, acts + more, sys', out);
      Associative(out, ActOutputs(sys', acts[1..]), ActOutputs(After(sys, acts), more));
      Associative(ActAsks(sys, acts[0]), ActRequests(sys', acts[1..]), ActRequests(After(sys, acts), more));
    }
  }

  /** A call that the thread serves from a cache it has just looked at. */
  function Draw(client: nat, c: Cache): Event {
    Event(client, c.lastTime, 0, Silent, c.uu.node, [])
  }

  /** After a fork that copies a cache with timestamps left, parent and child hand out
      the same UUID, and nobody asks the clock. */
  lemma {:induction false} ParentAndChildRepeat(sys: System, p: nat, c: nat, cache: Cache)
    requires p != c && cache == CacheOf(sys, p) && cache.num > 0
    ensures var acts := [Forks(p, c), Calls(Draw(p, cache)), Calls(Draw(c, cache))];
            !AllDifferent(ActOutputs(sys, acts)) && ActRequests(sys, acts) == []
  {
    var d, e, uu := Calls(Draw(p, cache)), Calls(Draw(c, cache)), NextBy(cache.uu, 1);
    var sys1 := ActStep(sys, Forks(p, c)).0;
    var sys2 := DrawStep(sys1, d.event, cache, uu);
    var sys3 := DrawStep(sys2, e.event, cache, uu);
    ThreeActs(sys, [Forks(p, c), d, e], sys1, sys2, sys3, Wire(uu));
    Alike(Wire(uu));
  }

  lemma Alike(u: Packed)
    ensures !AllDifferent([u, u])
  {
    assert [u, u][0] == [u, u][1];
  }

  lemma {:induction false} ThreeActs(sys: System, acts: seq<Act>, sys1: System, sys2: System, sys3: System, u: Packed)
    requires |acts| == 3 && ActStep(sys, acts[0]) == (sys1, []) && ActAsks(sys, acts[0]) == []
    requires ActStep(sys1, acts[1]) == (sys2, [u]) && ActAsks(sys1, acts[1]) == []
    requires ActStep(sys2, acts[2]) == (sys3, [u]) && ActAsks(sys2, acts[2]) == []
    ensures ActOutputs(sys, acts) == [u, u] && ActRequests(sys, acts) == []
  {
    OneAct(sys2, acts[2], [], sys3, [u]);
    OneAct(sys1, acts[1], [acts[2]], sys2, [u]);
    OneAct(sys, acts[0], [acts[1], acts[2]], sys1, []);
    assert [acts[2]] + [] == [acts[2]] && [acts[1]] + [acts[2]] == [acts[1], acts[2]];
    assert [acts[0]] + [acts[1], acts[2]] == acts;
  }

  lemma {:induction false} OneAct(sys: System, a: Act, acts: seq<Act>, sys': System, out: seq<Packed>)
    requires ActStep(sys, a) == (sys', out) && ActAsks(sys, a) == []
    ensures ActOutputs(sys, [a] + acts) == out + ActOutputs(sys', acts)
    ensures ActRequests(sys, [a] + acts) == ActRequests(sys', acts)
  {
    assert ([a] + acts)[1..] == acts;
  }

  lemma RepeatsLater(front: seq<Packed>, back: seq<Packed>)
    requires !AllDifferent(back)
    ensures !AllDifferent(front + back)
  {
    var i, j :| 0 <= i < j < |back| && back[i] == back[j];
    var all := front + back;
    assert all[|front| + i] == all[|front| + j];
  }

  /** Whatever comes after this fork, as long as further forks are safe, no UUID is
      handed out twice. */
  ghost predicate StaysUnique(sys: System, before: seq<Act>, fork: Act) {
    forall after | IsTame(sys, before + ([fork] + after)) && SafeAfter(sys, before, fork, after) ::
      AllDifferent(ActOutputs(sys, before + ([fork] + after)))
  }

  ghost predicate SafeAfter(sys: System, before: seq<Act>, fork: Act, after: seq<Act>) {
    AllSafe(ActStep(After(sys, before), fork).0, after)
  }

  /** A fork in any tame run whose forks were safe so far: hand-outs stay unique whatever
      comes after it, if and only if the cache it copies has nothing left. */
  lemma {:induction false} ForkIsSafeIff(sys: System, before: seq<Act>, p: nat, c: nat)
    requires IsTame(sys, before) && AllSafe(sys, before) && p != c
    ensures StaysUnique(sys, before, Forks(p, c)) <==> CacheOf(After(sys, before), p).num <= 0
  {
    var fork, cache := Forks(p, c), CacheOf(After(sys, before), p);
    if cache.num <= 0 {
      forall after | IsTame(sys, before + ([fork] + after)) && SafeAfter(sys, before, fork, after)
        ensures AllDifferent(ActOutputs(sys, before + ([fork] + after)))
      {
        assert ([fork] + after)[1..] == after;
        ActsAppend(sys, before, [fork] + after);
        SafeForksNeverRepeat(sys, before + ([fork] + after));
      }
    } else {
      UnsafeForkRepeats(sys, before, p, c, cache);
    }
  }

  lemma {:induction false} UnsafeForkRepeats(sys: System, before: seq<Act>, p: nat, c: nat, cache: Cache)
    requires IsTame(sys, before) && p != c && cache == CacheOf(After(sys, before), p) && cache.num > 0
    ensures !StaysUnique(sys, before, Forks(p, c))
  {
    var fork, after := Forks(p, c), [Calls(Draw(p, cache)), Calls(Draw(c, cache))];
    var acts := [fork] + after;
    assert acts == [fork, Calls(Draw(p, cache)), Calls(Draw(c, cache))];
    ParentAndChildRepeat(After(sys, before), p, c, cache);
    ActsAppend(sys, before, acts);
    RepeatsLater(ActOutputs(sys, before), ActOutputs(After(sys, before), acts));
    assert ActRequests(sys, before + acts) == ActRequests(sys, before);
    CallsAreSafe(ActStep(After(sys, before), fork).0, after);
    assert IsTame(sys, before + acts) && SafeAfter(sys, before, fork, after);
  }

  lemma {:induction false} CallsAreSafe(sys: System, acts: seq<Act>)
    requires forall a <- acts :: a.Calls?
    ensures AllSafe(sys, acts)
    decreases |acts|
  {
    if acts != [] {
      CallsAreSafe(ActStep(sys, acts[0]).0, acts[1..]);
    }
  }
}
