/** The table keyed by some function of the services behaves exactly like the plain
    table keyed by the services themselves, if and only if the function tells all
    services involved apart. */
module TableRefinement {
  import opened ServiceKey
  import opened ServiceTable

  /** The plain keying. */
  function Self(p: Peer): Peer {
    p
  }

  ghost predicate TellsApart<K>(key: Keying<K>, peers: set<Peer>) {
    forall p, q | p in peers && q in peers && key(p) == key(q) :: p == q
  }

  /** `m` is `m0` with the keys of the services in place of the services. */
  ghost predicate Mirrors<K, V>(key: Keying<K>, peers: set<Peer>, m: map<K, V>, m0: map<Peer, V>) {
    && m0.Keys <= peers
    && (forall p <- m0 :: key(p) in m && m[key(p)] == m0[p])
    && (forall k <- m :: exists p :: p in m0 && key(p) == k)
  }

  /** Two tables with the same history and the same contents up to keys. */
  ghost predicate Matches<K>(key: Keying<K>, peers: set<Peer>, t: Table<K>, t0: Table<Peer>) {
    && t.client == t0.client && t.browser == t0.browser && t.created == t0.created
    && t.freed == t0.freed && t.log == t0.log
    && Mirrors(key, peers, t.resolvers, t0.resolvers)
    && Mirrors(key, peers, t.services, t0.services)
  }

  ghost predicate Concerns(e: Event, peers: set<Peer>) {
    match e
    case Stop(gone, freed) => forall p <- gone + freed :: p in peers
    case Failure(gone, freed) => forall p <- gone + freed :: p in peers
    case New(p) => p in peers
    case Gone(p) => p in peers
    case Found(p, _) => p in peers
    case NotFound(p) => p in peers
    case _ => true
  }

  lemma MirrorsKey<K, V>(key: Keying<K>, peers: set<Peer>, m: map<K, V>, m0: map<Peer, V>, p: Peer)
    requires TellsApart(key, peers) && Mirrors(key, peers, m, m0) && p in peers
    ensures key(p) in m <==> p in m0
    ensures p in m0 ==> m[key(p)] == m0[p]
  {
    if key(p) in m {
      var q :| q in m0 && key(q) == key(p);
    }
  }

  lemma MirrorsPut<K, V>(key: Keying<K>, peers: set<Peer>, m: map<K, V>, m0: map<Peer, V>, p: Peer, v: V)
    requires TellsApart(key, peers) && Mirrors(key, peers, m, m0) && p in peers
    ensures Mirrors(key, peers, m[key(p) := v], m0[p := v])
  {
    var m', m0' := m[key(p) := v], m0[p := v];
    forall k | k in m' ensures exists q :: q in m0' && key(q) == k {
      if k == key(p) {
        assert p in m0';
      } else {
        var q :| q in m0 && key(q) == k;
        assert q in m0';
      }
    }
  }

  lemma MirrorsRemove<K, V>(key: Keying<K>, peers: set<Peer>, m: map<K, V>, m0: map<Peer, V>, p: Peer)
    requires TellsApart(key, peers) && Mirrors(key, peers, m, m0) && p in peers
    ensures Mirrors(key, peers, m - {key(p)}, m0 - {p})
  {
    var m', m0' := m - {key(p)}, m0 - {p};
    forall k | k in m' ensures exists q :: q in m0' && key(q) == k {
      var q :| q in m0 && key(q) == k;
      assert q in m0';
    }
  }

  lemma SelfKeys(order: seq<Peer>)
    ensures Keys(Self, order) == order
  {
    forall i | 0 <= i < |order| ensures Keys(Self, order)[i] == order[i] {
      assert Self(order[i]) == order[i];
    }
  }

  lemma EnumeratesPlain<K, V>(key: Keying<K>, peers: set<Peer>, m: map<K, V>, m0: map<Peer, V>, order: seq<Peer>)
    requires TellsApart(key, peers) && Mirrors(key, peers, m, m0) && forall p <- order :: p in peers
    requires Enumerates(Keys(key, order), m.Keys)
    ensures Enumerates(order, m0.Keys)
  {
    var ks := Keys(key, order);
    forall i | 0 <= i < |order| ensures order[i] in m0 {
      assert ks[i] in ks && order[i] in order;
      MirrorsKey(key, peers, m, m0, order[i]);
    }
    forall p | p in m0 ensures p in order {
      assert key(p) in ks;
      var i :| 0 <= i < |ks| && ks[i] == key(p);
      assert order[i] in order && order[i] == p;
    }
    forall i, j | 0 <= i < j < |order| ensures order[i] != order[j] {
      assert ks[i] != ks[j];
    }
  }

  lemma EnumeratesKeys<K, V>(key: Keying<K>, peers: set<Peer>, m: map<K, V>, m0: map<Peer, V>, order: seq<Peer>)
    requires TellsApart(key, peers) && Mirrors(key, peers, m, m0) && forall p <- order :: p in peers
    requires Enumerates(order, m0.Keys)
    ensures Enumerates(Keys(key, order), m.Keys)
  {
    var ks := Keys(key, order);
    forall i | 0 <= i < |ks| ensures ks[i] in m {
      assert order[i] in order;
    }
    forall k | k in m ensures k in ks {
      var p :| p in m0 && key(p) == k;
      var i :| 0 <= i < |order| && order[i] == p;
      assert ks[i] == k;
    }
    forall i, j | 0 <= i < j < |ks| ensures ks[i] != ks[j] {
      assert order[i] != order[j] && order[i] in order && order[j] in order;
    }
  }

  lemma EnumeratesSame<K, V>(key: Keying<K>, peers: set<Peer>, m: map<K, V>, m0: map<Peer, V>, order: seq<Peer>)
    requires TellsApart(key, peers) && Mirrors(key, peers, m, m0) && forall p <- order :: p in peers
    ensures Enumerates(Keys(key, order), m.Keys) <==> Enumerates(order, m0.Keys)
  {
    if Enumerates(order, m0.Keys) {
      EnumeratesKeys(key, peers, m, m0, order);
    } else if Enumerates(Keys(key, order), m.Keys) {
      EnumeratesPlain(key, peers, m, m0, order);
    }
  }

  lemma RemovalsSame<K>(key: Keying<K>, peers: set<Peer>, m: map<K, Service>, m0: map<Peer, Service>, order: seq<Peer>)
    requires TellsApart(key, peers) && Mirrors(key, peers, m, m0) && forall p <- order :: p in peers
    requires Enumerates(Keys(key, order), m.Keys) && Enumerates(order, m0.Keys)
    ensures Removals(m, Keys(key, order)) == Removals(m0, order)
  {
    forall i | 0 <= i < |order| ensures Removals(m, Keys(key, order))[i] == Removals(m0, order)[i] {
      assert order[i] in order && Keys(key, order)[i] in Keys(key, order);
      MirrorsKey(key, peers, m, m0, order[i]);
    }
  }

  lemma FreesSame<K>(key: Keying<K>, peers: set<Peer>, m: map<K, nat>, m0: map<Peer, nat>, order: seq<Peer>)
    requires TellsApart(key, peers) && Mirrors(key, peers, m, m0) && forall p <- order :: p in peers
    requires Enumerates(Keys(key, order), m.Keys) && Enumerates(order, m0.Keys)
    ensures Frees(m, Keys(key, order)) == Frees(m0, order)
  {
    forall i | 0 <= i < |order| ensures Frees(m, Keys(key, order))[i] == Frees(m0, order)[i] {
      assert order[i] in order && Keys(key, order)[i] in Keys(key, order);
      MirrorsKey(key, peers, m, m0, order[i]);
    }
  }

  lemma VisitsSame<K>(key: Keying<K>, peers: set<Peer>, t: Table<K>, t0: Table<Peer>, gone: seq<Peer>, freed: seq<Peer>)
    requires TellsApart(key, peers) && Matches(key, peers, t, t0) && forall p <- gone + freed :: p in peers
    ensures Visits(t, Keys(key, gone), Keys(key, freed)) <==> Visits(t0, gone, freed)
  {
    assert forall p <- gone :: p in gone + freed;
    assert forall p <- freed :: p in gone + freed;
    EnumeratesSame(key, peers, t.services, t0.services, gone);
    EnumeratesSame(key, peers, t.resolvers, t0.resolvers, freed);
  }

  lemma CleanUpSame<K>(key: Keying<K>, peers: set<Peer>, t: Table<K>, t0: Table<Peer>, gone: seq<Peer>,
                       freed: seq<Peer>)
    requires TellsApart(key, peers) && Matches(key, peers, t, t0) && forall p <- gone + freed :: p in peers
    requires t.browser ==> Visits(t, Keys(key, gone), Keys(key, freed)) && Visits(t0, gone, freed)
    ensures Matches(key, peers, CleanUp(t, Keys(key, gone), Keys(key, freed)), CleanUp(t0, gone, freed))
  {
    if t.browser {
      assert forall p <- gone :: p in gone + freed;
      assert forall p <- freed :: p in gone + freed;
      RemovalsSame(key, peers, t.services, t0.services, gone);
      FreesSame(key, peers, t.resolvers, t0.resolvers, freed);
    }
  }

  lemma EnabledSame<K>(key: Keying<K>, peers: set<Peer>, t: Table<K>, t0: Table<Peer>, e: Event)
    requires TellsApart(key, peers) && Matches(key, peers, t, t0) && Concerns(e, peers)
    ensures Enabled(key, t, e) <==> Enabled(Self, t0, e)
  {
    match e
    case Stop(gone, freed) =>
      SelfKeys(gone);
      SelfKeys(freed);
      VisitsSame(key, peers, t, t0, gone, freed);
    case Failure(gone, freed) =>
      SelfKeys(gone);
      SelfKeys(freed);
      VisitsSame(key, peers, t, t0, gone, freed);
    case Found(p, _) => MirrorsKey(key, peers, t.resolvers, t0.resolvers, p);
    case NotFound(p) => MirrorsKey(key, peers, t.resolvers, t0.resolvers, p);
    case _ =>
  }

  lemma DropSame<K>(key: Keying<K>, peers: set<Peer>, t: Table<K>, t0: Table<Peer>, p: Peer)
    requires TellsApart(key, peers) && Matches(key, peers, t, t0) && p in peers
    ensures Matches(key, peers, Drop(t, key(p)), Drop(t0, p))
  {
    MirrorsKey(key, peers, t.services, t0.services, p);
    MirrorsRemove(key, peers, t.services, t0.services, p);
  }

  /** Step for step the two tables stay the same. */
  lemma StepRefines<K>(key: Keying<K>, peers: set<Peer>, t: Table<K>, t0: Table<Peer>, e: Event)
    requires TellsApart(key, peers) && Matches(key, peers, t, t0) && Concerns(e, peers)
    requires Enabled(key, t, e) && Enabled(Self, t0, e)
    ensures Matches(key, peers, Step(key, t, e), Step(Self, t0, e))
  {
    match e
    case Start(_) =>
    case Settled =>
    case Stop(gone, freed) =>
      SelfKeys(gone);
      SelfKeys(freed);
      CleanUpSame(key, peers, t, t0, gone, freed);
    case Failure(gone, freed) =>
      SelfKeys(gone);
      SelfKeys(freed);
      CleanUpSame(key, peers, t, t0, gone, freed);
    case New(p) =>
      MirrorsKey(key, peers, t.resolvers, t0.resolvers, p);
      MirrorsPut(key, peers, t.resolvers, t0.resolvers, p, t.created);
    case Gone(p) =>
      MirrorsKey(key, peers, t.resolvers, t0.resolvers, p);
      MirrorsRemove(key, peers, t.resolvers, t0.resolvers, p);
      if p in t0.resolvers {
        DropSame(key, peers, t.(freed := t.freed + [t.resolvers[key(p)]], resolvers := t.resolvers - {key(p)}),
                 t0.(freed := t0.freed + [t0.resolvers[p]], resolvers := t0.resolvers - {p}), p);
      }
    case Found(p, r) =>
      MirrorsKey(key, peers, t.services, t0.services, p);
      var s := if p in t0.services then Refreshed(t0.services[p], r) else NewService(p, r);
      MirrorsPut(key, peers, t.services, t0.services, p, s);
    case NotFound(p) => DropSame(key, peers, t, t0, p);
  }

  /** If the keys tell the services apart, every run is possible with the one table
      exactly if it is with the other, and ends with the same history and the same
      contents up to keys. */
  lemma {:induction false} RunRefines<K>(key: Keying<K>, peers: set<Peer>, t: Table<K>, t0: Table<Peer>, es: seq<Event>)
    requires TellsApart(key, peers) && Matches(key, peers, t, t0) && forall e <- es :: Concerns(e, peers)
    ensures AllEnabled(key, t, es) <==> AllEnabled(Self, t0, es)
    ensures AllEnabled(key, t, es) ==> Matches(key, peers, Run(key, t, es), Run(Self, t0, es))
    decreases |es|
  {
    if es != [] {
      EnabledSame(key, peers, t, t0, es[0]);
      if Enabled(key, t, es[0]) {
        StepRefines(key, peers, t, t0, es[0]);
        RunRefines(key, peers, Step(key, t, es[0]), Step(Self, t0, es[0]), es[1..]);
      }
    }
  }

  /** Two services in a row get as many resolvers as they have keys. */
  lemma TwoNew<K>(key: Keying<K>, p: Peer, q: Peer)
    requires IsPeer(p) && IsPeer(q)
    ensures var es := [Start(true), New(p), New(q)];
            && AllEnabled(key, Fresh(true), es)
            && Run(key, Fresh(true), es).created == if key(p) == key(q) then 1 else 2
  {
    var t1 := Step(key, Fresh(true), Start(true));
    var t2 := Step(key, t1, New(p));
    RunCons(key, t2, New(q), []);
    RunCons(key, t1, New(p), [New(q)]);
    RunCons(key, Fresh(true), Start(true), [New(p), New(q)]);
  }

  /** If two services share a key, three events are enough to tell the tables apart:
      the second service gets no resolver. */
  lemma ClashDiverges<K>(key: Keying<K>, p: Peer, q: Peer)
    requires IsPeer(p) && IsPeer(q) && p != q && key(p) == key(q)
    ensures var es := [Start(true), New(p), New(q)];
            && AllEnabled(key, Fresh(true), es) && AllEnabled(Self, Fresh(true), es)
            && Run(key, Fresh(true), es).created < Run(Self, Fresh(true), es).created
  {
    TwoNew(key, p, q);
    TwoNew(Self, p, q);
  }

  /** Services with these names; `signed` admits negative interface indices. */
  ghost predicate AreNamed(peers: set<Peer>, names: set<string>, signed: bool) {
    forall p <- peers :: p.name in names && IsPeer(p) && (signed || 0 <= p.iface)
  }

  /** For unambiguous names -- none is another one followed by the beginning of an
      index -- the table with printed keys is the plain table. */
  lemma {:induction false} PrintedKeysRefine(names: set<string>, signed: bool, peers: set<Peer>, es: seq<Event>)
    requires Unambiguous(names, signed) && AreNamed(peers, names, signed) && forall e <- es :: Concerns(e, peers)
    ensures AllEnabled(KeyOf, Fresh(true), es) <==> AllEnabled(Self, Fresh(true), es)
    ensures AllEnabled(KeyOf, Fresh(true), es) ==>
              Matches(KeyOf, peers, Run(KeyOf, Fresh(true), es), Run(Self, Fresh(true), es))
  {
    KeysAreUniqueIff(names, signed);
    forall p, q | p in peers && q in peers && KeyOf(p) == KeyOf(q) ensures p == q {
      assert !HasKeyClash(names, signed, p, q);
    }
    RunRefines(KeyOf, peers, Fresh(true), Fresh(true), es);
  }

  /** For ambiguous names some run of the table with printed keys is not one of the
      plain table. */
  lemma AmbiguousNamesDiverge(names: set<string>, signed: bool) returns (p: Peer, q: Peer)
    requires !Unambiguous(names, signed)
    ensures AreNamed({p, q}, names, signed)
    ensures var es := [Start(true), New(p), New(q)];
            && AllEnabled(KeyOf, Fresh(true), es) && AllEnabled(Self, Fresh(true), es)
            && Run(KeyOf, Fresh(true), es).created < Run(Self, Fresh(true), es).created
  {
    KeysAreUniqueIff(names, signed);
    p, q :| HasKeyClash(names, signed, p, q);
    ClashDiverges(KeyOf, p, q);
  }
}
