/** The browser of the Avahi back end as a state machine over its callbacks: which
    resolvers are alive, which services are published to the application, and the
    signals it receives. The type of keys is a parameter, so that the table keyed
    by printed strings can be compared with one keyed by the services themselves. */
module ServiceTable {
  import opened Bytes
  import opened Options
  import opened TxtRecords
  import opened ServiceKey

  /** QZeroConfServiceData; the interface index is unsigned. */
  datatype Service = Service(name: string, kind: string, domain: string, host: string, iface: Word32, port: int,
                             txt: TxtMap, ip: string)

  datatype Signal = Added(service: Service) | Updated(service: Service) | Removed(service: Service) | BrowserFailed

  /** The tables, and the history: how many resolvers were created, which of them
      were freed, and every signal emitted. Resolvers are numbered as created. */
  datatype Table<K> = Table(client: bool, browser: bool, resolvers: map<K, nat>, services: map<K, Service>,
                            created: nat, freed: seq<nat>, log: seq<Signal>)

  /** What a resolver reports about its service. */
  datatype Reply = Reply(kind: string, domain: string, host: string, port: int, txt: seq<ByteString>, ip: string)

  /** Calls and callbacks. `gone` and `freed` are the orders in which a clean-up
      visits the services and the resolvers. */
  datatype Event =
    | Start(works: bool)
    | Stop(gone: seq<Peer>, freed: seq<Peer>)
    | Failure(gone: seq<Peer>, freed: seq<Peer>)
    | New(peer: Peer)
    | Gone(peer: Peer)
    | Settled
    | Found(peer: Peer, reply: Reply)
    | NotFound(peer: Peer)

  type Keying<!K> = Peer -> K

  function NewService(p: Peer, r: Reply): Service {
    Service(p.name, r.kind, r.domain, r.host, p.iface % TWO32, r.port, AddRecords(map[], r.txt), r.ip)
  }

  /** Only the TXT records and the address of a known service are updated. */
  function Refreshed(s: Service, r: Reply): Service {
    s.(txt := AddRecords(s.txt, r.txt), ip := r.ip)
  }

  function Drop<K>(t: Table<K>, k: K): Table<K> {
    if k in t.services then t.(services := t.services - {k}, log := t.log + [Removed(t.services[k])]) else t
  }

  function Keys<K>(key: Keying<K>, ps: seq<Peer>): seq<K> {
    seq(|ps|, i requires 0 <= i < |ps| => key(ps[i]))
  }

  function Removals<K>(services: map<K, Service>, ks: seq<K>): seq<Signal>
    requires forall k <- ks :: k in services
  {
    seq(|ks|, i requires 0 <= i < |ks| => Removed(services[ks[i]]))
  }

  function Frees<K>(resolvers: map<K, nat>, ks: seq<K>): seq<nat>
    requires forall k <- ks :: k in resolvers
  {
    seq(|ks|, i requires 0 <= i < |ks| => resolvers[ks[i]])
  }

  /** Every element of the set once. */
  predicate Enumerates<K(==)>(ks: seq<K>, s: set<K>) {
    && (forall k <- ks :: k in s)
    && (forall k <- s :: k in ks)
    && (forall i, j | 0 <= i < j < |ks| :: ks[i] != ks[j])
  }

  /** broswerCleanUp */
  function CleanUp<K>(t: Table<K>, gone: seq<K>, freed: seq<K>): Table<K>
    requires t.browser ==> Visits(t, gone, freed)
  {
    if !t.browser then t
    else t.(browser := false, services := map[], resolvers := map[], log := t.log + Removals(t.services, gone),
            freed := t.freed + Frees(t.resolvers, freed))
  }

  predicate Visits<K(==)>(t: Table<K>, gone: seq<K>, freed: seq<K>) {
    Enumerates(gone, t.services.Keys) && Enumerates(freed, t.resolvers.Keys)
  }

  /** What the Avahi library guarantees: browse callbacks come while there is a
      browser, resolver callbacks from a resolver that has not been freed. */
  predicate Enabled<K(==)>(key: Keying<K>, t: Table<K>, e: Event) {
    match e
    case Start(_) => true
    case Stop(gone, freed) => t.browser ==> Visits(t, Keys(key, gone), Keys(key, freed))
    case Failure(gone, freed) => t.browser && Visits(t, Keys(key, gone), Keys(key, freed))
    case New(p) => t.browser && IsPeer(p)
    case Gone(p) => t.browser && IsPeer(p)
    case Settled => t.browser
    case Found(p, _) => IsPeer(p) && key(p) in t.resolvers
    case NotFound(p) => IsPeer(p) && key(p) in t.resolvers
  }

  function Step<K(==)>(key: Keying<K>, t: Table<K>, e: Event): Table<K>
    requires Enabled(key, t, e)
  {
    match e
    case Start(works) =>
      if !t.client || t.browser || !works then t.(log := t.log + [BrowserFailed]) else t.(browser := true)
    case Stop(gone, freed) => CleanUp(t, Keys(key, gone), Keys(key, freed))
    case Failure(gone, freed) =>
      var t' := CleanUp(t, Keys(key, gone), Keys(key, freed));
      t'.(log := t'.log + [BrowserFailed])
    case New(p) =>
      if key(p) in t.resolvers then t
      else t.(resolvers := t.resolvers[key(p) := t.created], created := t.created + 1)
    case Gone(p) =>
      var k := key(p);
      if k !in t.resolvers then t
      else Drop(t.(freed := t.freed + [t.resolvers[k]], resolvers := t.resolvers - {k}), k)
    case Settled => t
    case Found(p, r) =>
      var k := key(p);
      if k in t.services then
        var s := Refreshed(t.services[k], r);
        t.(services := t.services[k := s], log := t.log + [Updated(s)])
      else
        var s := NewService(p, r);
        t.(services := t.services[k := s], log := t.log + [Added(s)])
    case NotFound(p) => Drop(t, key(p))
  }

  // Replaying the signals

  function KeyOfService<K>(key: Keying<K>, s: Service): K {
    key(Peer(s.name, s.iface))
  }

  /** What an application knows that starts with nothing and follows the signals:
      added only for an absent service, updated and removed only for a present
      one, and removed with the service as last known. */
  function Replay<K(==)>(key: Keying<K>, log: seq<Signal>): Option<map<K, Service>> {
    if log == [] then Some(map[])
    else
      var m :- Replay(key, log[..|log| - 1]);
      Apply(key, m, log[|log| - 1])
  }

  function Apply<K(==)>(key: Keying<K>, m: map<K, Service>, signal: Signal): Option<map<K, Service>> {
    match signal
    case Added(s) => if KeyOfService(key, s) in m then None else Some(m[KeyOfService(key, s) := s])
    case Updated(s) => if KeyOfService(key, s) in m then Some(m[KeyOfService(key, s) := s]) else None
    case Removed(s) =>
      var k := KeyOfService(key, s);
      if k in m && m[k] == s then Some(m - {k}) else None
    case BrowserFailed => Some(m)
  }

  // What every step keeps

  /** The key of every published service can be rebuilt from it. */
  predicate KeysFit<K(==)>(key: Keying<K>, services: map<K, Service>) {
    forall k <- services :: KeyOfService(key, services[k]) == k
  }

  /** Every resolver created is either in the table or has been freed, once. */
  predicate Accounted<K(==)>(t: Table<K>) {
    && (forall k <- t.resolvers :: t.resolvers[k] < t.created && t.resolvers[k] !in t.freed)
    && (forall j, k | j in t.resolvers && k in t.resolvers && j != k :: t.resolvers[j] != t.resolvers[k])
    && (forall i | 0 <= i < |t.freed| :: t.freed[i] < t.created)
    && (forall i, j | 0 <= i < j < |t.freed| :: t.freed[i] != t.freed[j])
    && (forall id: nat | id < t.created :: id in t.freed || id in t.resolvers.Values)
  }

  /** Published services have live resolvers, without a browser both tables are
      empty, and every resolver is accounted for. */
  predicate Books<K(==)>(t: Table<K>) {
    && t.services.Keys <= t.resolvers.Keys
    && (!t.browser ==> t.resolvers == map[])
    && Accounted(t)
  }

  /** Moreover, the signals so far replay to exactly the published services. */
  predicate Inv<K(==)>(key: Keying<K>, t: Table<K>) {
    Books(t) && KeysFit(key, t.services) && Replay(key, t.log) == Some(t.services)
  }

  lemma ReplayOne<K>(key: Keying<K>, log: seq<Signal>, signal: Signal, m: map<K, Service>)
    requires Replay(key, log) == Some(m)
    ensures Replay(key, log + [signal]) == Apply(key, m, signal)
  {
    assert (log + [signal])[..|log|] == log;
  }

  function SetOf<K(==)>(ks: seq<K>): set<K> {
    set k <- ks
  }

  lemma SetOfSnoc<K>(ks: seq<K>, k: K)
    ensures SetOf(ks + [k]) == SetOf(ks) + {k}
  {
  }

  lemma ReplayRemoval<K>(key: Keying<K>, log: seq<Signal>, services: map<K, Service>, gone: set<K>, k: K)
    requires Replay(key, log) == Some(services - gone) && KeysFit(key, services) && k in services && k !in gone
    ensures Replay(key, log + [Removed(services[k])]) == Some(services - (gone + {k}))
  {
    ReplayOne(key, log, Removed(services[k]), services - gone);
    assert services - gone - {k} == services - (gone + {k});
  }

  lemma RemovalsSnoc<K>(services: map<K, Service>, ks: seq<K>, k: K)
    requires k in services && forall j <- ks :: j in services
    ensures forall j <- ks + [k] :: j in services
    ensures Removals(services, ks + [k]) == Removals(services, ks) + [Removed(services[k])]
  {
  }

  predicate Distinct<K(==)>(ks: seq<K>) {
    forall i, j | 0 <= i < j < |ks| :: ks[i] != ks[j]
  }

  lemma DistinctSnoc<K>(ks: seq<K>, k: K)
    requires Distinct(ks + [k])
    ensures Distinct(ks) && k !in SetOf(ks)
  {
    var all := ks + [k];
    forall i | 0 <= i < |ks| ensures ks[i] != k {
      assert all[i] != all[|ks|];
    }
    forall i, j | 0 <= i < j < |ks| ensures ks[i] != ks[j] {
      assert all[i] != all[j];
    }
  }

  /** Removing the services at the keys visited leaves the others. */
  lemma {:induction false} ReplayRemovals<K>(key: Keying<K>, log: seq<Signal>, services: map<K, Service>, ks: seq<K>)
    requires Replay(key, log) == Some(services) && KeysFit(key, services) && Distinct(ks)
    requires forall k <- ks :: k in services
    ensures Replay(key, log + Removals(services, ks)) == Some(services - SetOf(ks))
    decreases |ks|
  {
    if ks == [] {
      assert log + Removals(services, ks) == log && services - SetOf(ks) == services;
    } else {
      var init, last := ks[..|ks| - 1], ks[|ks| - 1];
      assert ks == init + [last];
      DistinctSnoc(init, last);
      ReplayRemovals(key, log, services, init);
      ReplayNextRemoval(key, log, services, init, last);
    }
  }

  lemma ReplayNextRemoval<K>(key: Keying<K>, log: seq<Signal>, services: map<K, Service>, ks: seq<K>, k: K)
    requires KeysFit(key, services) && k !in SetOf(ks) && k in services && forall j <- ks :: j in services
    requires Replay(key, log + Removals(services, ks)) == Some(services - SetOf(ks))
    ensures forall j <- ks + [k] :: j in services
    ensures Replay(key, log + Removals(services, ks + [k])) == Some(services - SetOf(ks + [k]))
  {
    var before := log + Removals(services, ks);
    RemovalsSnoc(services, ks, k);
    SetOfSnoc(ks, k);
    ReplayRemoval(key, before, services, SetOf(ks), k);
    assert log + Removals(services, ks + [k]) == before + [Removed(services[k])];
  }

  /** Freeing the resolvers in any order frees each of them once. */
  lemma FreesAll<K>(t: Table<K>, ks: seq<K>)
    requires Accounted(t) && Enumerates(ks, t.resolvers.Keys)
    ensures Accounted(t.(resolvers := map[], freed := t.freed + Frees(t.resolvers, ks)))
  {
    var freed := t.freed + Frees(t.resolvers, ks);
    forall id: nat | id < t.created ensures id in freed {
      if id !in t.freed {
        var k :| k in t.resolvers && t.resolvers[k] == id;
        var i :| 0 <= i < |ks| && ks[i] == k;
        assert freed[|t.freed| + i] == id;
      }
    }
  }

  lemma CleanUpKeepsBooks<K>(t: Table<K>, gone: seq<K>, freed: seq<K>)
    requires Books(t) && (t.browser ==> Visits(t, gone, freed))
    ensures Books(CleanUp(t, gone, freed))
    ensures CleanUp(t, gone, freed).resolvers == map[] && !CleanUp(t, gone, freed).browser
  {
    if t.browser {
      FreesAll(t, freed);
    }
  }

  lemma CleanUpReplays<K>(key: Keying<K>, t: Table<K>, gone: seq<K>, freed: seq<K>)
    requires Inv(key, t) && (t.browser ==> Visits(t, gone, freed))
    ensures var t' := CleanUp(t, gone, freed);
            KeysFit(key, t'.services) && Replay(key, t'.log) == Some(t'.services)
  {
    if t.browser {
      ReplayRemovals(key, t.log, t.services, gone);
      assert t.services - SetOf(gone) == map[];
    }
  }

  lemma DropReplays<K>(key: Keying<K>, t: Table<K>, k: K)
    requires KeysFit(key, t.services) && Replay(key, t.log) == Some(t.services)
    ensures KeysFit(key, Drop(t, k).services) && Replay(key, Drop(t, k).log) == Some(Drop(t, k).services)
  {
    if k in t.services {
      ReplayOne(key, t.log, Removed(t.services[k]), t.services);
    }
  }

  lemma FreeOneAccounted<K>(t: Table<K>, k: K)
    requires Accounted(t) && k in t.resolvers
    ensures Accounted(t.(freed := t.freed + [t.resolvers[k]], resolvers := t.resolvers - {k}))
  {
    var t' := t.(freed := t.freed + [t.resolvers[k]], resolvers := t.resolvers - {k});
    forall id: nat | id < t.created ensures id in t'.freed || id in t'.resolvers.Values {
      if id !in t.freed && id != t.resolvers[k] {
        var j :| j in t.resolvers && t.resolvers[j] == id;
        assert j in t'.resolvers && t'.resolvers[j] == id;
      }
    }
  }

  lemma CreateAccounted<K>(t: Table<K>, k: K)
    requires Accounted(t) && k !in t.resolvers
    ensures Accounted(t.(resolvers := t.resolvers[k := t.created], created := t.created + 1))
  {
    var t' := t.(resolvers := t.resolvers[k := t.created], created := t.created + 1);
    forall id: nat | id < t'.created ensures id in t'.freed || id in t'.resolvers.Values {
      if id == t.created {
        assert t'.resolvers[k] == id;
      } else if id !in t.freed {
        var j :| j in t.resolvers && t.resolvers[j] == id;
        assert j in t'.resolvers && t'.resolvers[j] == id;
      }
    }
  }

  /** The service as its announcement identifies it: the index has been stored
      as an unsigned number. */
  function Stored(p: Peer): Peer {
    Peer(p.name, p.iface % TWO32)
  }

  /** A service that a resolver finds has the key of its announcement. */
  predicate Rebuilds<K(==)>(key: Keying<K>, e: Event) {
    e.Found? ==> key(Stored(e.peer)) == key(e.peer)
  }

  lemma FoundReplays<K>(key: Keying<K>, t: Table<K>, p: Peer, r: Reply)
    requires Inv(key, t) && IsPeer(p) && key(p) in t.resolvers && Rebuilds(key, Found(p, r))
    ensures var t' := Step(key, t, Found(p, r));
            KeysFit(key, t'.services) && Replay(key, t'.log) == Some(t'.services)
  {
    var k := key(p);
    if k in t.services {
      ReplayOne(key, t.log, Updated(Refreshed(t.services[k], r)), t.services);
    } else {
      ReplayOne(key, t.log, Added(NewService(p, r)), t.services);
    }
  }

  /** The announcement of a new service lets the signals replay to the published
      services if and only if its key can be rebuilt from it. */
  lemma AnnouncementReplaysIff<K>(key: Keying<K>, t: Table<K>, p: Peer, r: Reply)
    requires Inv(key, t) && IsPeer(p) && key(p) in t.resolvers && key(p) !in t.services
    ensures var t' := Step(key, t, Found(p, r));
            Replay(key, t'.log) == Some(t'.services) <==> key(Stored(p)) == key(p)
  {
    var s, k, k' := NewService(p, r), key(p), key(Stored(p));
    ReplayOne(key, t.log, Added(s), t.services);
    if k' != k && k' !in t.services {
      assert k in t.services[k := s] && k !in t.services[k' := s];
    }
  }

  /** With printed keys: if and only if the interface index is not negative. */
  lemma PrintedKeyReplaysIff(t: Table<string>, p: Peer, r: Reply)
    requires Inv(KeyOf, t) && IsPeer(p) && KeyOf(p) in t.resolvers && KeyOf(p) !in t.services
    ensures var t' := Step(KeyOf, t, Found(p, r));
            Replay(KeyOf, t'.log) == Some(t'.services) <==> 0 <= p.iface
  {
    AnnouncementReplaysIff(KeyOf, t, p, r);
    KeyIsRebuiltIff(p.name, p.iface, p.iface % TWO32);
  }

  /** Every call and callback keeps the books, whatever the keys are. */
  lemma StepKeepsBooks<K>(key: Keying<K>, t: Table<K>, e: Event)
    requires Books(t) && Enabled(key, t, e)
    ensures Books(Step(key, t, e))
  {
    match e
    case Stop(gone, freed) => CleanUpKeepsBooks(t, Keys(key, gone), Keys(key, freed));
    case Failure(gone, freed) => CleanUpKeepsBooks(t, Keys(key, gone), Keys(key, freed));
    case New(p) =>
      if key(p) !in t.resolvers {
        CreateAccounted(t, key(p));
      }
    case Gone(p) =>
      if key(p) in t.resolvers {
        FreeOneAccounted(t, key(p));
      }
    case _ =>
  }

  /** Moreover, as long as services found have the key of their announcement, the
      signals keep replaying to exactly the published services. */
  lemma StepKeepsInv<K>(key: Keying<K>, t: Table<K>, e: Event)
    requires Inv(key, t) && Enabled(key, t, e) && Rebuilds(key, e)
    ensures Inv(key, Step(key, t, e))
  {
    StepKeepsBooks(key, t, e);
    match e
    case Start(works) => ReplayOne(key, t.log, BrowserFailed, t.services);
    case Stop(gone, freed) => CleanUpReplays(key, t, Keys(key, gone), Keys(key, freed));
    case Failure(gone, freed) =>
      var t' := CleanUp(t, Keys(key, gone), Keys(key, freed));
      CleanUpReplays(key, t, Keys(key, gone), Keys(key, freed));
      ReplayOne(key, t'.log, BrowserFailed, t'.services);
    case Gone(p) =>
      var k := key(p);
      if k in t.resolvers {
        DropReplays(key, t.(freed := t.freed + [t.resolvers[k]], resolvers := t.resolvers - {k}), k);
      }
    case Found(p, r) => FoundReplays(key, t, p, r);
    case NotFound(p) => DropReplays(key, t, key(p));
    case _ =>
  }

  /** While a service stays published its name, host, port and interface stay as
      first announced, and the names of its TXT records only accumulate: a later
      reply with another host or port is not taken over. */
  lemma PublishedIdentityIsStable<K>(key: Keying<K>, t: Table<K>, e: Event, k: K)
    requires Enabled(key, t, e) && k in t.services && k in Step(key, t, e).services
    ensures var s, s' := t.services[k], Step(key, t, e).services[k];
            && (s'.name, s'.kind, s'.domain) == (s.name, s.kind, s.domain)
            && (s'.host, s'.iface, s'.port) == (s.host, s.iface, s.port)
            && s.txt.Keys <= s'.txt.Keys
  {
    if e.Found? && key(e.peer) == k {
      RecordsAccumulate(t.services[k].txt, e.reply.txt);
    }
  }

  /** The service has the identity that a reply gives it. */
  predicate SameIdentity(s: Service, p: Peer, r: Reply) {
    (s.name, s.kind, s.domain, s.host, s.iface, s.port) == (p.name, r.kind, r.domain, r.host, p.iface % TWO32, r.port)
  }

  /** After a reply the published service is what the reply describes, if and only if
      the service was not published yet, or was published with the same identity
      and no TXT names but those of the reply. */
  lemma ReplyIsTakenOverIff<K>(key: Keying<K>, t: Table<K>, p: Peer, r: Reply)
    requires Enabled(key, t, Found(p, r))
    ensures Step(key, t, Found(p, r)).services[key(p)] == NewService(p, r) <==>
            key(p) !in t.services
            || (SameIdentity(t.services[key(p)], p, r) && forall name <- t.services[key(p)].txt :: IsNamed(r.txt, name))
  {
    if key(p) in t.services {
      RecordsReplaceIff(t.services[key(p)].txt, r.txt);
    }
  }

  // Runs

  predicate AllEnabled<K(==)>(key: Keying<K>, t: Table<K>, es: seq<Event>)
    decreases |es|
  {
    es == [] || (Enabled(key, t, es[0]) && AllEnabled(key, Step(key, t, es[0]), es[1..]))
  }

  function Run<K(==)>(key: Keying<K>, t: Table<K>, es: seq<Event>): Table<K>
    requires AllEnabled(key, t, es)
    decreases |es|
  {
    if es == [] then t else Run(key, Step(key, t, es[0]), es[1..])
  }

  lemma {:induction false} RunKeepsBooks<K>(key: Keying<K>, t: Table<K>, es: seq<Event>)
    requires Books(t) && AllEnabled(key, t, es)
    ensures Books(Run(key, t, es))
    decreases |es|
  {
    if es != [] {
      StepKeepsBooks(key, t, es[0]);
      RunKeepsBooks(key, Step(key, t, es[0]), es[1..]);
    }
  }

  lemma {:induction false} RunKeepsInv<K>(key: Keying<K>, t: Table<K>, es: seq<Event>)
    requires Inv(key, t) && AllEnabled(key, t, es) && forall e <- es :: Rebuilds(key, e)
    ensures Inv(key, Run(key, t, es))
    decreases |es|
  {
    if es != [] {
      StepKeepsInv(key, t, es[0]);
      RunKeepsInv(key, Step(key, t, es[0]), es[1..]);
    }
  }

  /** A browser that has just been constructed. */
  function Fresh<K>(client: bool): Table<K> {
    Table(client, false, map[], map[], 0, [], [])
  }

  /** After any run published services have live resolvers; once the destructor has
      cleaned up, both tables are empty, and every resolver ever created has been
      freed exactly once. */
  lemma {:induction false} DestructorFreesAll<K>(key: Keying<K>, client: bool, es: seq<Event>, gone: seq<Peer>,
                                                freed: seq<Peer>)
    requires AllEnabled(key, Fresh(client), es)
    requires Enabled(key, Run(key, Fresh(client), es), Stop(gone, freed))
    ensures var t := Run(key, Fresh(client), es);
            var t' := Step(key, t, Stop(gone, freed));
            && t.services.Keys <= t.resolvers.Keys
            && t'.services == map[] && t'.resolvers == map[]
            && t'.created == t.created
            && (forall id: nat :: id < t.created <==> id in t'.freed)
            && (forall i, j | 0 <= i < j < |t'.freed| :: t'.freed[i] != t'.freed[j])
  {
    RunKeepsBooks(key, Fresh(client), es);
    CleanUpKeepsBooks(Run(key, Fresh(client), es), Keys(key, gone), Keys(key, freed));
  }

  /** After any run in which the services found have the keys of their announcements,
      the signals rebuild the published services, and once the destructor has
      cleaned up, every service announced has been withdrawn. */
  lemma {:induction false} DestructorWithdrawsAll<K>(key: Keying<K>, client: bool, es: seq<Event>, gone: seq<Peer>,
                                                    freed: seq<Peer>)
    requires AllEnabled(key, Fresh(client), es) && forall e <- es :: Rebuilds(key, e)
    requires Enabled(key, Run(key, Fresh(client), es), Stop(gone, freed))
    ensures var t := Run(key, Fresh(client), es);
            && Replay(key, t.log) == Some(t.services)
            && Replay(key, Step(key, t, Stop(gone, freed)).log) == Some(map[])
  {
    RunKeepsInv(key, Fresh(client), es);
    var t := Run(key, Fresh(client), es);
    StepKeepsInv(key, t, Stop(gone, freed));
    CleanUpKeepsBooks(t, Keys(key, gone), Keys(key, freed));
  }

  /** Two replies about one service in a row: the second one is taken over if and only
      if it differs from the first one in nothing but TXT values, further TXT names
      and the address. The first host and port stay, and all its TXT names. */
  lemma SecondReplyIsTakenOverIff<K>(key: Keying<K>, p: Peer, r1: Reply, r2: Reply)
    requires IsPeer(p)
    ensures var es := [Start(true), New(p), Found(p, r1), Found(p, r2)];
            && AllEnabled(key, Fresh(true), es)
            && key(p) in Run(key, Fresh(true), es).services
            && var s := Run(key, Fresh(true), es).services[key(p)];
            && s.host == r1.host && s.port == r1.port
            && (forall rec <- r1.txt :: NameOf(rec) in s.txt)
            && (s == NewService(p, r2) <==>
                && (r1.kind, r1.domain, r1.host, r1.port) == (r2.kind, r2.domain, r2.host, r2.port)
                && forall rec <- r1.txt :: IsNamed(r2.txt, NameOf(rec)))
  {
    var es := [Start(true), New(p), Found(p, r1), Found(p, r2)];
    var t := TwoReplies(key, p, r1, r2);
    var s := NewService(p, r1);
    ReplyIsTakenOverIff(key, t, p, r2);
    RecordsReplaceIff(map[], r1.txt);
    RecordsAccumulate(s.txt, r2.txt);
    forall rec | rec in r1.txt ensures NameOf(rec) in s.txt {
      assert IsNamed(r1.txt, NameOf(rec));
    }
  }

  /** The table before the second reply. */
  lemma TwoReplies<K>(key: Keying<K>, p: Peer, r1: Reply, r2: Reply) returns (t: Table<K>)
    requires IsPeer(p)
    ensures Enabled(key, t, Found(p, r2)) && t.services == map[key(p) := NewService(p, r1)]
    ensures var es := [Start(true), New(p), Found(p, r1), Found(p, r2)];
            AllEnabled(key, Fresh(true), es) && Run(key, Fresh(true), es) == Step(key, t, Found(p, r2))
  {
    var t1 := Step(key, Fresh(true), Start(true));
    var t2 := Step(key, t1, New(p));
    t := Step(key, t2, Found(p, r1));
    RunCons(key, t, Found(p, r2), []);
    RunCons(key, t2, Found(p, r1), [Found(p, r2)]);
    RunCons(key, t1, New(p), [Found(p, r1), Found(p, r2)]);
    RunCons(key, Fresh(true), Start(true), [New(p), Found(p, r1), Found(p, r2)]);
  }

  lemma RunCons<K>(key: Keying<K>, t: Table<K>, e: Event, es: seq<Event>)
    requires Enabled(key, t, e) && AllEnabled(key, Step(key, t, e), es)
    ensures AllEnabled(key, t, [e] + es) && Run(key, t, [e] + es) == Run(key, Step(key, t, e), es)
  {
    assert ([e] + es)[1..] == es;
  }

  // What callbacks do, and which services are there after a run

  /** A service that goes away takes its resolver with it: exactly that resolver is
      freed, and exactly that service is withdrawn if it was published. */
  lemma GoneWithdraws<K>(key: Keying<K>, t: Table<K>, p: Peer)
    requires Books(t) && Enabled(key, t, Gone(p))
    ensures var t', k := Step(key, t, Gone(p)), key(p);
            && t'.services == t.services - {k} && t'.resolvers == t.resolvers - {k}
            && t'.freed == t.freed + (if k in t.resolvers then [t.resolvers[k]] else [])
            && t'.log == t.log + (if k in t.services then [Removed(t.services[k])] else [])
            && t'.browser && t'.created == t.created
  {
  }

  /** A service that cannot be resolved is withdrawn, but its resolver stays. */
  lemma NotFoundWithdraws<K>(key: Keying<K>, t: Table<K>, p: Peer)
    requires Books(t) && Enabled(key, t, NotFound(p))
    ensures var t', k := Step(key, t, NotFound(p)), key(p);
            && t'.services == t.services - {k} && t'.resolvers == t.resolvers && k in t'.resolvers
            && t'.freed == t.freed && t'.created == t.created
            && t'.log == t.log + (if k in t.services then [Removed(t.services[k])] else [])
  {
  }

  /** The event ends the life of the resolver at `k`, or only that of its service. */
  predicate Ends<K(==)>(key: Keying<K>, e: Event, k: K, service: bool) {
    || e.Stop? || e.Failure?
    || (e.Gone? && key(e.peer) == k)
    || (service && e.NotFound? && key(e.peer) == k)
  }

  predicate Brings<K(==)>(key: Keying<K>, e: Event, k: K, service: bool) {
    if service then e.Found? && key(e.peer) == k else e.New? && key(e.peer) == k
  }

  /** Something has brought the resolver at `k`, or its service, and nothing has ended
      it since. */
  ghost predicate IsThere<K>(key: Keying<K>, es: seq<Event>, k: K, service: bool) {
    exists i | 0 <= i < |es| ::
      Brings(key, es[i], k, service) && forall j | i < j < |es| :: !Ends(key, es[j], k, service)
  }

  /** The browser was started successfully and not stopped since. */
  ghost predicate Browses(client: bool, es: seq<Event>) {
    client && exists i | 0 <= i < |es| ::
      es[i] == Start(true) && forall j | i < j < |es| :: !es[j].Stop? && !es[j].Failure?
  }

  lemma IsThereSnoc<K>(key: Keying<K>, es: seq<Event>, e: Event, k: K, service: bool)
    ensures IsThere(key, es + [e], k, service) <==>
            Brings(key, e, k, service) || (IsThere(key, es, k, service) && !Ends(key, e, k, service))
  {
    var all := es + [e];
    if IsThere(key, all, k, service) && !Brings(key, e, k, service) {
      var i :| && 0 <= i < |all| && Brings(key, all[i], k, service)
               && forall j | i < j < |all| :: !Ends(key, all[j], k, service);
      assert !Ends(key, all[|es|], k, service);
      assert Brings(key, es[i], k, service) && forall j | i < j < |es| :: !Ends(key, es[j], k, service) by {
        assert forall j | i < j < |es| :: es[j] == all[j];
      }
    }
    if Brings(key, e, k, service) {
      assert Brings(key, all[|es|], k, service);
    } else if IsThere(key, es, k, service) && !Ends(key, e, k, service) {
      var i :| && 0 <= i < |es| && Brings(key, es[i], k, service)
               && forall j | i < j < |es| :: !Ends(key, es[j], k, service);
      assert Brings(key, all[i], k, service);
    }
  }

  lemma BrowsesSnoc(client: bool, es: seq<Event>, e: Event)
    ensures Browses(client, es + [e]) <==>
            client && (e == Start(true) || (Browses(client, es) && !e.Stop? && !e.Failure?))
  {
    var all := es + [e];
    if Browses(client, all) && e != Start(true) {
      var i :| 0 <= i < |all| && all[i] == Start(true) && forall j | i < j < |all| :: !all[j].Stop? && !all[j].Failure?;
      assert !all[|es|].Stop? && !all[|es|].Failure?;
      assert es[i] == Start(true) && forall j | i < j < |es| :: !es[j].Stop? && !es[j].Failure? by {
        assert forall j | i < j < |es| :: es[j] == all[j];
      }
    }
    if client && e == Start(true) {
      assert all[|es|] == Start(true);
    } else if Browses(client, es) && !e.Stop? && !e.Failure? {
      var i :| 0 <= i < |es| && es[i] == Start(true) && forall j | i < j < |es| :: !es[j].Stop? && !es[j].Failure?;
      assert all[i] == Start(true);
    }
  }

  lemma {:induction false} RunSnoc<K>(key: Keying<K>, t: Table<K>, es: seq<Event>, e: Event)
    requires AllEnabled(key, t, es + [e])
    ensures AllEnabled(key, t, es) && Enabled(key, Run(key, t, es), e)
    ensures Run(key, t, es + [e]) == Step(key, Run(key, t, es), e)
    decreases |es|
  {
    var all := es + [e];
    if es == [] {
      assert all == [e] && [e][1..] == [];
    } else {
      assert all[0] == es[0] && all[1..] == es[1..] + [e];
      RunSnoc(key, Step(key, t, es[0]), es[1..], e);
    }
  }

  /** How often the application has been told that browsing failed. */
  function Complaints(log: seq<Signal>): nat {
    if log == [] then 0 else Complaints(log[..|log| - 1]) + (if log[|log| - 1] == BrowserFailed then 1 else 0)
  }

  /** How often browsing has failed: when the back end said so, and when it was started
      without a client, while browsing, or in vain. */
  ghost function Troubles(client: bool, es: seq<Event>): nat {
    if es == [] then 0
    else
      var init, e := es[..|es| - 1], es[|es| - 1];
      Troubles(client, init)
      + (if e.Failure? || (e.Start? && !(client && e.works && !Browses(client, init))) then 1 else 0)
  }

  lemma {:induction false} ComplaintsAppend(log: seq<Signal>, more: seq<Signal>)
    ensures Complaints(log + more) == Complaints(log) + Complaints(more)
    decreases |more|
  {
    if more == [] {
      assert log + more == log;
    } else {
      var n := |more| - 1;
      ComplaintsAppend(log, more[..n]);
      assert (log + more)[..|log| + n] == log + more[..n];
    }
  }

  lemma {:induction false} RemovalsAreNoComplaints<K>(services: map<K, Service>, ks: seq<K>)
    requires forall k <- ks :: k in services
    ensures Complaints(Removals(services, ks)) == 0
    decreases |ks|
  {
    if ks != [] {
      var n := |ks| - 1;
      RemovalsAreNoComplaints(services, ks[..n]);
      assert Removals(services, ks)[..n] == Removals(services, ks[..n]);
    }
  }

  lemma StepComplains<K>(key: Keying<K>, t: Table<K>, e: Event)
    requires Enabled(key, t, e)
    ensures Complaints(Step(key, t, e).log) == Complaints(t.log)
              + (if e.Failure? || (e.Start? && !(t.client && e.works && !t.browser)) then 1 else 0)
  {
    match e
    case Start(_) => ComplaintsAppend(t.log, [BrowserFailed]);
    case Stop(gone, freed) => CleanUpComplains(t, Keys(key, gone), Keys(key, freed));
    case Failure(gone, freed) =>
      CleanUpComplains(t, Keys(key, gone), Keys(key, freed));
      ComplaintsAppend(CleanUp(t, Keys(key, gone), Keys(key, freed)).log, [BrowserFailed]);
    case New(_) =>
    case Gone(p) => DropComplains(t, key(p));
    case Settled =>
    case Found(p, r) =>
      var s := if key(p) in t.services then Refreshed(t.services[key(p)], r) else NewService(p, r);
      ComplaintsAppend(t.log, [if key(p) in t.services then Updated(s) else Added(s)]);
    case NotFound(p) => DropComplains(t, key(p));
  }

  lemma DropComplains<K>(t: Table<K>, k: K)
    ensures Complaints(Drop(t, k).log) == Complaints(t.log)
  {
    if k in t.services {
      ComplaintsAppend(t.log, [Removed(t.services[k])]);
    }
  }

  lemma CleanUpComplains<K>(t: Table<K>, gone: seq<K>, freed: seq<K>)
    requires t.browser ==> Visits(t, gone, freed)
    ensures Complaints(CleanUp(t, gone, freed).log) == Complaints(t.log)
  {
    if t.browser {
      RemovalsAreNoComplaints(t.services, gone);
      ComplaintsAppend(t.log, Removals(t.services, gone));
    }
  }

  lemma CleanUpEmpties<K>(t: Table<K>, gone: seq<K>, freed: seq<K>)
    requires Books(t) && (t.browser ==> Visits(t, gone, freed))
    ensures CleanUp(t, gone, freed).services == map[] && CleanUp(t, gone, freed).resolvers == map[]
  {
    if !t.browser {
      assert t.services.Keys == {};
    }
  }

  lemma StepHasResolver<K>(key: Keying<K>, t: Table<K>, e: Event, k: K)
    requires Books(t) && Enabled(key, t, e)
    ensures k in Step(key, t, e).resolvers <==>
            Brings(key, e, k, false) || (k in t.resolvers && !Ends(key, e, k, false))
  {
    match e
    case Stop(gone, freed) => CleanUpEmpties(t, Keys(key, gone), Keys(key, freed));
    case Failure(gone, freed) => CleanUpEmpties(t, Keys(key, gone), Keys(key, freed));
    case Gone(p) => GoneWithdraws(key, t, p);
    case NotFound(p) => NotFoundWithdraws(key, t, p);
    case _ =>
  }

  lemma StepHasService<K>(key: Keying<K>, t: Table<K>, e: Event, k: K)
    requires Books(t) && Enabled(key, t, e)
    ensures k in Step(key, t, e).services <==> Brings(key, e, k, true) || (k in t.services && !Ends(key, e, k, true))
  {
    match e
    case Stop(gone, freed) => CleanUpEmpties(t, Keys(key, gone), Keys(key, freed));
    case Failure(gone, freed) => CleanUpEmpties(t, Keys(key, gone), Keys(key, freed));
    case Gone(p) => GoneWithdraws(key, t, p);
    case NotFound(p) => NotFoundWithdraws(key, t, p);
    case _ =>
  }

  /** After any run, and for whatever keys: there is a resolver for a key if and only if
      a service with that key has been announced and has not gone since, nor has the
      browser stopped; it is published if and only if moreover it was resolved and
      has not failed to resolve since; the browser runs if and only if it has been
      started successfully and not stopped since; and the application has been told
      of every failure, and of no others. */
  lemma {:induction false} TablesFollowEvents<K>(key: Keying<K>, client: bool, es: seq<Event>)
    requires AllEnabled(key, Fresh(client), es)
    ensures var t := Run(key, Fresh(client), es);
            && t.client == client && (t.browser <==> Browses(client, es))
            && (forall k :: k in t.resolvers <==> IsThere(key, es, k, false))
            && (forall k :: k in t.services <==> IsThere(key, es, k, true))
            && Complaints(t.log) == Troubles(client, es)
    decreases |es|
  {
    if es != [] {
      var init, e := es[..|es| - 1], es[|es| - 1];
      assert es == init + [e];
      RunSnoc(key, Fresh(client), init, e);
      TablesFollowEvents(key, client, init);
      RunKeepsBooks(key, Fresh(client), init);
      var t := Run(key, Fresh(client), init);
      BrowsesSnoc(client, init, e);
      StepComplains(key, t, e);
      forall k
        ensures k in Step(key, t, e).resolvers <==> IsThere(key, es, k, false)
        ensures k in Step(key, t, e).services <==> IsThere(key, es, k, true)
      {
        StepHasResolver(key, t, e, k);
        StepHasService(key, t, e, k);
        IsThereSnoc(key, init, e, k, false);
        IsThereSnoc(key, init, e, k, true);
      }
    }
  }
}
