/** The browser of the Avahi back end as it runs: callbacks that change the tables
    and the published service objects in place, proved against the state machine. */
module AvahiBrowser {
  import opened Bytes
  import opened TxtRecords
  import opened ServiceKey
  import opened ServiceTable

  /** QZeroConfServiceData, shared with the application. */
  class ServiceData {
    const name: string
    const kind: string
    const domain: string
    const host: string
    const iface: Word32
    const port: int
    var txt: TxtMap
    var ip: string

    constructor (name: string, kind: string, domain: string, host: string, iface: Word32, port: int)
      ensures Value() == Service(name, kind, domain, host, iface, port, map[], "")
    {
      this.name, this.kind, this.domain, this.host := name, kind, domain, host;
      this.iface, this.port, txt, ip := iface, port, map[], "";
    }

    function Value(): Service
      reads this
    {
      Service(name, kind, domain, host, iface, port, txt, ip)
    }

    /** The loop over the TXT records of a reply. */
    method AddTxt(recs: seq<ByteString>)
      modifies this
      ensures Value() == old(Value()).(txt := AddRecords(old(txt), recs))
    {
      ghost var goal := AddRecords(txt, recs);
      assert recs[0..] == recs;
      for i := 0 to |recs|
        invariant Value() == old(Value()).(txt := txt)
        invariant AddRecords(txt, recs[i..]) == goal
      {
        assert recs[i..][0] == recs[i] && recs[i..][1..] == recs[i + 1..];
        txt := Insert(txt, recs[i]);
      }
    }

    /** What a further reply changes. */
    method Update(r: Reply)
      modifies this
      ensures Value() == Refreshed(old(Value()), r)
    {
      AddTxt(r.txt);
      ip := r.ip;
    }
  }

  /** A new service object as a reply describes it, the address not yet set. */
  method Filled(p: Peer, r: Reply) returns (zcs: ServiceData)
    ensures fresh(zcs) && zcs.Value() == NewService(p, r).(ip := "")
  {
    zcs := new ServiceData(p.name, r.kind, r.domain, r.host, p.iface % TWO32, r.port);
    zcs.AddTxt(r.txt);
  }

  method Listed(s: set<string>) returns (ks: seq<string>)
    ensures Enumerates(ks, s)
  {
    ks := [];
    var rest := s;
    while rest != {}
      invariant Enumerates(ks, s - rest) && rest <= s
      decreases |rest|
    {
      var k :| k in rest;
      ks := ks + [k];
      rest := rest - {k};
    }
    assert s - rest == s;
  }

  /** Services that have these keys. */
  lemma Sources(key: Keying<string>, source: map<string, Peer>, ks: seq<string>) returns (order: seq<Peer>)
    requires forall k <- ks :: k in source && key(source[k]) == k
    ensures Keys(key, order) == ks
  {
    order := seq(|ks|, i requires 0 <= i < |ks| => source[ks[i]]);
    forall i | 0 <= i < |ks| ensures Keys(key, order)[i] == ks[i] {
      assert ks[i] in ks;
    }
  }

  datatype BrowserEvent = FAILURE | NEW | REMOVE | ALL_FOR_NOW | CACHE_EXHAUSTED

  class Browser {
    const client: bool
    const keyOf: Keying<string>  // how the keys of the tables are made from services
    var browser: bool
    var resolvers: map<string, nat>
    var services: map<string, ServiceData>
    var created: nat
    var freed: seq<nat>
    var log: seq<Signal>
    ghost var source: map<string, Peer>  // the service each resolver was created for

    /** No two keys share a service object. */
    ghost predicate Unshared()
      reads `services
    {
      forall j, k | j in services && k in services && j != k :: services[j] != services[k]
    }

    /** Moreover, services have resolvers, and keys are keys of services. */
    ghost predicate Valid()
      reads `services, `resolvers, `source
    {
      && Unshared()
      && services.Keys <= resolvers.Keys
      && (forall k <- resolvers :: k in source && keyOf(source[k]) == k)
    }

    ghost function Published(): map<string, Service>
      reads `services, services.Values
    {
      map k | k in services :: services[k].Value()
    }

    ghost function View(): Table<string>
      reads this, services.Values
    {
      Table(client, browser, resolvers, Published(), created, freed, log)
    }

    constructor (client: bool)
      ensures Valid() && View() == Fresh(client) && keyOf == KeyOf
    {
      keyOf := KeyOf;
      this.client, browser, resolvers, services := client, false, map[], map[];
      created, freed, log, source := 0, [], [], map[];
    }

    /** broswerCleanUp: withdraw every service, free every resolver. */
    method BrowserCleanUp() returns (gone: seq<string>, frees: seq<string>)
      requires Valid()
      modifies this
      ensures Valid() && source == old(source)
      ensures Enumerates(gone, old(services.Keys)) && Enumerates(frees, old(resolvers.Keys))
      ensures View() == CleanUp(old(View()), gone, frees)
    {
      gone := Listed(services.Keys);
      frees := Listed(resolvers.Keys);
      if !browser {
        return;
      }
      browser := false;
      WithdrawAll(gone);
      FreeAll(frees);
    }

    /** The first loop of the clean-up. */
    method WithdrawAll(ks: seq<string>)
      requires forall k <- ks :: k in services
      modifies this`log, this`services
      ensures services == map[] && log == old(log) + Removals(old(Published()), ks)
    {
      ghost var removals := Removals(Published(), ks);
      for i := 0 to |ks|
        invariant services == old(services)
        invariant log == old(log) + removals[..i]
      {
        log := log + [Removed(services[ks[i]].Value())];
      }
      services := map[];
    }

    /** The second loop of the clean-up. */
    method FreeAll(ks: seq<string>)
      requires forall k <- ks :: k in resolvers
      modifies this`freed, this`resolvers
      ensures resolvers == map[] && freed == old(freed) + Frees(old(resolvers), ks)
    {
      ghost var frees := Frees(resolvers, ks);
      for i := 0 to |ks|
        invariant resolvers == old(resolvers)
        invariant freed == old(freed) + frees[..i]
      {
        freed := freed + [resolvers[ks[i]]];
      }
      resolvers := map[];
    }

    /** Withdraw the service at a key, if there is one. */
    method Withdraw(key: string)
      requires Unshared()
      modifies this`log, this`services
      ensures Unshared() && services.Keys == old(services.Keys) - {key} && View() == Drop(old(View()), key)
    {
      if key in services {
        var zcs := services[key];
        services := services - {key};
        log := log + [Removed(zcs.Value())];
        assert Published() == old(Published()) - {key};
      }
    }

    /** browseCallback */
    method BrowseCallback(event: BrowserEvent, p: Peer) returns (ghost e: Event)
      requires Valid() && browser && IsPeer(p)
      modifies this
      ensures Valid() && Enabled(keyOf, old(View()), e)
      ensures View() == Step(keyOf, old(View()), e)
      ensures match event
              case FAILURE => e.Failure?
              case NEW => e == New(p)
              case REMOVE => e == Gone(p)
              case _ => e == Settled
    {
      match event
      case FAILURE =>
        var gone, frees := BrowserCleanUp();
        ghost var withdrawn := Sources(keyOf, source, gone);
        ghost var released := Sources(keyOf, source, frees);
        e := Failure(withdrawn, released);
        log := log + [BrowserFailed];
      case NEW =>
        e := New(p);
        AddResolver(p);
      case REMOVE =>
        e := Gone(p);
        RemoveResolver(p);
      case ALL_FOR_NOW => e := Settled;
      case CACHE_EXHAUSTED => e := Settled;
    }

    method AddResolver(p: Peer)
      requires Valid() && browser && IsPeer(p)
      modifies this`resolvers, this`created, this`source
      ensures Valid() && View() == Step(keyOf, old(View()), New(p))
    {
      var key := keyOf(p);
      if key !in resolvers {
        resolvers := resolvers[key := created];
        created := created + 1;
        source := source[key := p];
      }
    }

    method RemoveResolver(p: Peer)
      requires Valid() && browser && IsPeer(p)
      modifies this`resolvers, this`freed, this`services, this`log
      ensures Valid() && View() == Step(keyOf, old(View()), Gone(p))
    {
      var key := keyOf(p);
      if key !in resolvers {
        return;
      }
      freed := freed + [resolvers[key]];
      resolvers := resolvers - {key};
      Withdraw(key);
    }

    /** resolveCallback */
    method ResolveCallback(found: bool, p: Peer, r: Reply)
      requires Valid() && IsPeer(p) && keyOf(p) in resolvers
      modifies this, services.Values
      ensures Valid()
      ensures View() == Step(keyOf, old(View()), if found then Found(p, r) else NotFound(p))
    {
      var key := keyOf(p);
      if !found {
        Withdraw(key);
      } else if key in services {
        Refresh(key, r);
      } else {
        Publish(key, p, r);
      }
    }

    /** A known service is updated in place. */
    method Refresh(key: string, r: Reply)
      requires Unshared() && key in services
      modifies this`log, services[key]
      ensures Unshared()
      ensures var s := Refreshed(old(services[key].Value()), r);
              Published() == old(Published())[key := s] && log == old(log) + [Updated(s)]
    {
      var zcs := services[key];
      zcs.Update(r);
      log := log + [Updated(zcs.Value())];
    }

    /** A new service object is filled in, entered and announced. */
    method Publish(key: string, p: Peer, r: Reply)
      requires Unshared() && key !in services
      modifies this`log, this`services
      ensures Unshared() && services.Keys == old(services.Keys) + {key}
      ensures var s := NewService(p, r);
              Published() == old(Published())[key := s] && log == old(log) + [Added(s)]
    {
      var zcs := Filled(p, r);
      assert forall k <- services :: services[k] != zcs;
      services := services[key := zcs];
      zcs.ip := r.ip;
      log := log + [Added(zcs.Value())];
    }

    /** startBrowser */
    method StartBrowser(works: bool)
      requires Valid()
      modifies this
      ensures Valid() && View() == Step(keyOf, old(View()), Start(works))
    {
      if !client || browser {
        log := log + [BrowserFailed];
        return;
      }
      browser := works;
      if !browser {
        log := log + [BrowserFailed];
      }
    }

    /** stopBrowser, and what the destructor does to the tables. */
    method StopBrowser() returns (ghost e: Event)
      requires Valid()
      modifies this
      ensures Valid() && e.Stop? && Enabled(keyOf, old(View()), e)
      ensures View() == Step(keyOf, old(View()), e)
    {
      var gone, frees := BrowserCleanUp();
      ghost var withdrawn := Sources(keyOf, source, gone);
      ghost var released := Sources(keyOf, source, frees);
      e := Stop(withdrawn, released);
    }
  }
}
