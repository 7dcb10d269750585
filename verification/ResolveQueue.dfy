/** The resolve queue of the Android back end: the system resolves one service at
    a time, so found services wait in line, and one that finds the resolver
    busy goes back to the end of the line. */
module ResolveQueue {
  import opened Options

  /** What happens to the manager: a service is found, the pending resolve fails
      because another one is active, fails for another reason, or succeeds. */
  datatype Event<T> = Found(service: T) | Busy | Failed | Resolved

  /** `resolverQueue` and `pendingResolve`, and the history: every call of
      resolveService in order, the requests the system has not yet answered, what
      was found, what was reported as resolved and what was given up. */
  datatype State<T> = State(queue: seq<T>, pending: Option<T>, started: seq<T>, inFlight: seq<T>,
                            found: seq<T>, resolved: seq<T>, dropped: seq<T>)

  /** processResolverQueue */
  function Process<T>(s: State<T>): State<T> {
    if s.queue == [] || s.pending.Some? then s
    else
      var next := s.queue[0];
      s.(queue := s.queue[1..], pending := Some(next), started := s.started + [next], inFlight := s.inFlight + [next])
  }

  /** enqueueResolver */
  function Enqueue<T>(s: State<T>, service: T): State<T> {
    Process(s.(queue := s.queue + [service]))
  }

  predicate IsCompletion<T>(e: Event<T>) {
    !e.Found?
  }

  /** The system answers only a request that is in flight. */
  predicate Enabled<T>(s: State<T>, e: Event<T>) {
    IsCompletion(e) ==> s.inFlight != [] && s.pending.Some?
  }

  /** onServiceFound, onResolveFailed and onServiceResolved. */
  function Step<T>(s: State<T>, e: Event<T>): State<T>
    requires Enabled(s, e)
  {
    match e
    case Found(service) => Enqueue(s.(found := s.found + [service]), service)
    case Busy =>
      var s' := Enqueue(s.(inFlight := s.inFlight[1..]), s.pending.value);
      Process(s'.(pending := None))
    case Failed =>
      Process(s.(inFlight := s.inFlight[1..], dropped := s.dropped + [s.pending.value], pending := None))
    case Resolved =>
      Process(s.(inFlight := s.inFlight[1..], resolved := s.resolved + [s.pending.value], pending := None))
  }

  // What every step keeps

  function AsSeq<T>(o: Option<T>): seq<T> {
    if o.Some? then [o.value] else []
  }

  /** Every service found so far, wherever it is now. */
  function Held<T>(s: State<T>): multiset<T> {
    multiset(s.queue) + multiset(AsSeq(s.pending)) + multiset(s.resolved) + multiset(s.dropped)
  }

  ghost predicate Inv<T>(s: State<T>) {
    // the system works on the pending service and on nothing else
    && s.inFlight == AsSeq(s.pending)
    // it never idles while services wait
    && (s.pending.None? ==> s.queue == [])
    // every service found is in exactly one place
    && multiset(s.found) == Held(s)
  }

  lemma ProcessEstablishesInv<T>(s: State<T>)
    requires s.inFlight == AsSeq(s.pending) && multiset(s.found) == Held(s)
    ensures Inv(Process(s))
  {
    if s.queue != [] && s.pending.None? {
      assert s.queue == [s.queue[0]] + s.queue[1..];
    }
  }

  /** What a step does before it looks at the queue again. */
  function Prepared<T>(s: State<T>, e: Event<T>): State<T>
    requires Enabled(s, e)
  {
    match e
    case Found(service) => s.(found := s.found + [service], queue := s.queue + [service])
    case Busy => s.(inFlight := s.inFlight[1..], queue := s.queue + [s.pending.value], pending := None)
    case Failed => s.(inFlight := s.inFlight[1..], dropped := s.dropped + [s.pending.value], pending := None)
    case Resolved => s.(inFlight := s.inFlight[1..], resolved := s.resolved + [s.pending.value], pending := None)
  }

  lemma StepIsProcess<T>(s: State<T>, e: Event<T>)
    requires Enabled(s, e)
    ensures Step(s, e) == Process(Prepared(s, e))
  {
  }

  lemma FoundIsHeld<T>(s: State<T>, service: T)
    requires multiset(s.found) == Held(s)
    ensures var p := s.(found := s.found + [service], queue := s.queue + [service]); multiset(p.found) == Held(p)
  {
  }

  lemma RequeuedIsHeld<T>(s: State<T>, x: T)
    requires multiset(s.found) == Held(s) && s.pending == Some(x)
    ensures Held(s.(queue := s.queue + [x], pending := None)) == Held(s)
  {
  }

  lemma DroppedIsHeld<T>(s: State<T>, x: T)
    requires multiset(s.found) == Held(s) && s.pending == Some(x)
    ensures Held(s.(dropped := s.dropped + [x], pending := None)) == Held(s)
  {
  }

  lemma ResolvedIsHeld<T>(s: State<T>, x: T)
    requires multiset(s.found) == Held(s) && s.pending == Some(x)
    ensures Held(s.(resolved := s.resolved + [x], pending := None)) == Held(s)
  {
  }

  lemma PreparedHoldsAll<T>(s: State<T>, e: Event<T>)
    requires Inv(s) && Enabled(s, e)
    ensures var p := Prepared(s, e); multiset(p.found) == Held(p) && p.inFlight == AsSeq(p.pending)
  {
    match e
    case Found(service) => FoundIsHeld(s, service);
    case Busy => RequeuedIsHeld(s, s.pending.value);
    case Failed => DroppedIsHeld(s, s.pending.value);
    case Resolved => ResolvedIsHeld(s, s.pending.value);
  }

  /** At most one request is in flight, the line never stands still, and nothing
      is lost or duplicated, whatever the system answers. */
  lemma StepKeepsInv<T>(s: State<T>, e: Event<T>)
    requires Inv(s) && Enabled(s, e)
    ensures Inv(Step(s, e))
  {
    StepIsProcess(s, e);
    PreparedHoldsAll(s, e);
    ProcessEstablishesInv(Prepared(s, e));
  }

  // Runs

  predicate AllEnabled<T>(s: State<T>, es: seq<Event<T>>)
    decreases |es|
  {
    es == [] || (Enabled(s, es[0]) && AllEnabled(Step(s, es[0]), es[1..]))
  }

  function Run<T>(s: State<T>, es: seq<Event<T>>): State<T>
    requires AllEnabled(s, es)
    decreases |es|
  {
    if es == [] then s else Run(Step(s, es[0]), es[1..])
  }

  function Completions<T>(es: seq<Event<T>>): nat {
    if es == [] then 0 else (if IsCompletion(es[0]) then 1 else 0) + Completions(es[1..])
  }

  lemma {:induction false} RunKeepsInv<T>(s: State<T>, es: seq<Event<T>>)
    requires Inv(s) && AllEnabled(s, es)
    ensures Inv(Run(s, es))
    decreases |es|
  {
    if es != [] {
      StepKeepsInv(s, es[0]);
      RunKeepsInv(Step(s, es[0]), es[1..]);
    }
  }

  /** How many of the events are `e`. */
  function Times<T(==)>(e: Event<T>, es: seq<Event<T>>): nat {
    if es == [] then 0 else (if es[0] == e then 1 else 0) + Times(e, es[1..])
  }

  function FoundIn<T>(es: seq<Event<T>>): seq<T> {
    if es == [] then [] else (if es[0].Found? then [es[0].service] else []) + FoundIn(es[1..])
  }

  /** Every success is reported once, every failure other than a busy resolver
      gives up once, and nothing else is reported or given up. */
  lemma {:induction false} OutcomesAreCounted<T>(s: State<T>, es: seq<Event<T>>)
    requires AllEnabled(s, es)
    ensures var s' := Run(s, es);
            && |s'.resolved| == |s.resolved| + Times(Resolved, es)
            && |s'.dropped| == |s.dropped| + Times(Failed, es)
            && s'.found == s.found + FoundIn(es)
    decreases |es|
  {
    if es != [] {
      OutcomesAreCounted(Step(s, es[0]), es[1..]);
    }
  }

  /** A completion starts the head of the line; a service found goes to its end. */
  lemma StepMovesLine<T>(s: State<T>, e: Event<T>, i: nat)
    requires Inv(s) && Enabled(s, e) && i < |s.queue|
    ensures var s' := Step(s, e);
            if !IsCompletion(e) then i < |s'.queue| && s'.queue[i] == s.queue[i] && s'.started == s.started
            else if i == 0 then s'.pending == Some(s.queue[0]) && s'.started == s.started + [s.queue[0]]
            else i - 1 < |s'.queue| && s'.queue[i - 1] == s.queue[i] && s'.started == s.started + [s.queue[0]]
  {
  }

  /** First come, first served: whatever is found meanwhile and however often
      services go back to the line, the service at place `i` stays in line for
      `i` completions... */
  lemma {:induction false} StaysInLine<T>(s: State<T>, es: seq<Event<T>>, i: nat)
    requires Inv(s) && AllEnabled(s, es) && i < |s.queue| && Completions(es) <= i
    ensures var s', n := Run(s, es), Completions(es);
            i - n < |s'.queue| && s'.queue[i - n] == s.queue[i] && |s'.started| == |s.started| + n
    decreases |es|
  {
    if es != [] {
      StepKeepsInv(s, es[0]);
      StepMovesLine(s, es[0], i);
      StaysInLine(Step(s, es[0]), es[1..], if IsCompletion(es[0]) then i - 1 else i);
    }
  }

  /** ...and is started by the next one. */
  lemma {:induction false} StartsInTurn<T>(s: State<T>, es: seq<Event<T>>, i: nat)
    requires Inv(s) && AllEnabled(s, es) && i < |s.queue| && Completions(es) > i
    ensures var s' := Run(s, es);
            && |s'.started| > |s.started| + i && s'.started[|s.started| + i] == s.queue[i]
            && (Completions(es) == i + 1 ==> s'.pending == Some(s.queue[i]))
    decreases |es|
  {
    var s' := Step(s, es[0]);
    StepKeepsInv(s, es[0]);
    StepMovesLine(s, es[0], i);
    if IsCompletion(es[0]) && i == 0 {
      StartedGrows(s', es[1..]);
    } else {
      StartsInTurn(s', es[1..], if IsCompletion(es[0]) then i - 1 else i);
    }
  }

  /** The record of started requests only grows, and without completions the
      pending one stays. */
  lemma {:induction false} StartedGrows<T>(s: State<T>, es: seq<Event<T>>)
    requires Inv(s) && AllEnabled(s, es)
    ensures s.started <= Run(s, es).started
    ensures Completions(es) == 0 && s.pending.Some? ==> Run(s, es).pending == s.pending
    decreases |es|
  {
    if es != [] {
      StepKeepsInv(s, es[0]);
      StartedGrows(Step(s, es[0]), es[1..]);
    }
  }

  /** The manager itself. */
  class Manager<T(==)> {
    var resolverQueue: seq<T>
    var pendingResolve: Option<T>
    var started: seq<T>
    ghost var inFlight: seq<T>
    ghost var found: seq<T>
    ghost var resolved: seq<T>
    ghost var dropped: seq<T>

    ghost function View(): State<T>
      reads this
    {
      State(resolverQueue, pendingResolve, started, inFlight, found, resolved, dropped)
    }

    constructor ()
      ensures View() == State([], None, [], [], [], [], [])
    {
      resolverQueue, pendingResolve, started := [], None, [];
      inFlight, found, resolved, dropped := [], [], [], [];
    }

    method ProcessResolverQueue()
      modifies this
      ensures View() == Process(old(View()))
    {
      if resolverQueue == [] {
        return;
      }
      if pendingResolve != None {
        return;
      }
      pendingResolve := Some(resolverQueue[0]);
      resolverQueue := resolverQueue[1..];
      started := started + [pendingResolve.value];
      inFlight := inFlight + [pendingResolve.value];
    }

    method EnqueueResolver(service: T)
      modifies this
      ensures View() == Enqueue(old(View()), service)
    {
      resolverQueue := resolverQueue + [service];
      ProcessResolverQueue();
    }

    method OnServiceFound(service: T)
      modifies this
      ensures View() == Step(old(View()), Found(service))
    {
      found := found + [service];
      EnqueueResolver(service);
    }

    method OnResolveFailed(alreadyActive: bool)
      requires Enabled(View(), Busy)
      modifies this
      ensures View() == Step(old(View()), if alreadyActive then Busy else Failed)
    {
      inFlight := inFlight[1..];
      if alreadyActive {
        EnqueueResolver(pendingResolve.value);
      } else {
        dropped := dropped + [pendingResolve.value];
      }
      pendingResolve := None;
      ProcessResolverQueue();
    }

    method OnServiceResolved()
      requires Enabled(View(), Resolved)
      modifies this
      ensures View() == Step(old(View()), Resolved)
    {
      inFlight := inFlight[1..];
      resolved := resolved + [pendingResolve.value];
      pendingResolve := None;
      ProcessResolverQueue();
    }
  }
}
