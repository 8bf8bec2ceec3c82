/** What one more turn of each of the manager's loops adds. */
module SharedLoops {
  import opened Base
  import opened Common
  import opened XrayAccounts
  import opened XrayInbounds
  import opened SharedState
  import opened SharedOps
  import opened SharedRuns
  import opened Usage
  import T = Tenants
  import R = TenantRegistry

  // ---- the core -----------------------------------------------------------

  ghost predicate SoundCore(core: Option<Core>) {
    core.Some? ==> forall i :: 0 <= i < |core.value| ==> SoundInbound(core.value[i])
  }

  /** UpdateUsers at every inbound, with the one user assigned to none. */
  function EvictCore(core: Core, u: User): Core {
    seq(|core|, i requires 0 <= i < |core| =>
      core[i].(clients := Updated(core[i].serve, core[i].clients, [Unassigned(u)])))
  }

  /** Syncing one more user. */
  lemma SyncMoves(core: Option<Core>, put: map<string, User>, out: set<string>, mid: Core, u: User)
    requires CoreMoved(core, put, out, Some(mid))
    ensures CoreMoved(core, put[u.email := u], out, Some(SyncCore(mid, u)))
  {
  }

  lemma EvictMovesOne(ib: Inbound, put: map<string, User>, out: set<string>, mid: Inbound, u: User)
    requires Moved(ib, put, out, mid) && SoundInbound(mid) && u.email !in put
    ensures Moved(ib, put, out + {u.email}, mid.(clients := Updated(mid.serve, mid.clients, [Unassigned(u)])))
  {
    var users := [Unassigned(u)];
    assert users[..0] == [];
    assert mid.serve(users[0]).None?;
    assert Added(mid.serve, mid.clients, users) == mid.clients;
    assert Unserved(mid.serve, users) == {u.email};
  }

  /** Removing one more user. */
  lemma EvictMoves(core: Option<Core>, put: map<string, User>, out: set<string>, mid: Core, u: User)
    requires CoreMoved(core, put, out, Some(mid)) && SoundCore(Some(mid)) && u.email !in put
    ensures CoreMoved(core, put, out + {u.email}, Some(EvictCore(mid, u)))
  {
    forall i | 0 <= i < |mid| ensures Moved(core.value[i], put, out + {u.email}, EvictCore(mid, u)[i]) {
      EvictMovesOne(core.value[i], put, out, mid[i], u);
    }
  }

  lemma MoveKeepsSound(core: Option<Core>, put: map<string, User>, out: set<string>, core': Option<Core>)
    requires SoundCore(core) && CoreMoved(core, put, out, core')
    ensures SoundCore(core')
  {
  }

  /** Two moves in a row. */
  lemma PutsCompose(core: Option<Core>, put: map<string, User>, mid: Option<Core>, put': map<string, User>,
                    core': Option<Core>)
    requires CoreMoved(core, put, {}, mid) && CoreMoved(mid, put', {}, core')
    ensures CoreMoved(core, put + put', {}, core')
  {
  }

  lemma OutsCompose(core: Option<Core>, out: set<string>, mid: Option<Core>, out': set<string>, core': Option<Core>)
    requires CoreMoved(core, map[], out, mid) && CoreMoved(mid, map[], out', core')
    ensures CoreMoved(core, map[], out + out', core')
  {
  }

  lemma NothingMoves(core: Option<Core>)
    ensures CoreMoved(core, map[], {}, core)
  {
  }

  // ---- user sets ----------------------------------------------------------

  lemma OnlyGrows(m: map<string, User>, seen: set<string>, e: string)
    requires e in m
    ensures Only(m, seen + {e}) == Only(m, seen)[e := m[e]]
  {
  }

  lemma OnlyAll(m: map<string, User>)
    ensures Only(m, m.Keys) == m && Only(m, {}) == map[]
  {
  }

  lemma EmailsGrow(s: State, ids: set<string>, id: string)
    ensures Emails(s, ids + {id}) == Emails(s, ids) + s.Users(id).Keys
  {
  }

  lemma MembersGrow(s: State, ids: set<string>, m: map<string, User>, id: string)
    requires Members(s, ids, m)
    ensures Members(s, ids + {id}, m + s.Users(id))
  {
  }

  // ---- the indexes --------------------------------------------------------

  /** A map with some keys deleted. */
  ghost predicate Without<V>(m: map<string, V>, gone: set<string>, m': map<string, V>) {
    forall e :: Lookup(m', e) == if e in gone then None else Lookup(m, e)
  }

  lemma WithoutOneMore<V>(m: map<string, V>, gone: set<string>, m': map<string, V>, e: string)
    requires Without(m, gone, m')
    ensures Without(m, gone + {e}, m' - {e})
  {
  }

  /** The three indexes with some users forgotten. */
  ghost predicate Forgot(s: State, gone: map<string, User>, s': State) {
    && Without(s.emailTo, gone.Keys, s'.emailTo)
    && Without(s.lastSeen, gone.Keys, s'.lastSeen)
    && Reindexed(s.creds, gone, map[], s'.creds)
  }

  lemma ForgotOneMore(s: State, from: map<string, User>, done: set<string>, mid: State, e: string, s': State)
    requires Forgot(s, Only(from, done), mid) && e in from && e !in done
    requires s'.emailTo == mid.emailTo - {e} && s'.lastSeen == mid.lastSeen - {e} &&
             s'.creds == mid.creds - Credentials(from[e])
    ensures Forgot(s, Only(from, done + {e}), s')
  {
    var gone := Only(from, done);
    OnlyGrows(from, done, e);
    assert Only(from, done + {e}).Keys == gone.Keys + {e};
    WithoutOneMore(s.emailTo, gone.Keys, mid.emailTo, e);
    WithoutOneMore(s.lastSeen, gone.Keys, mid.lastSeen, e);
    ReindexDropsOne(s.creds, gone, mid.creds, e, from[e]);
  }

  lemma NobodyForgotten(s: State)
    ensures Forgot(s, map[], s)
  {
  }

  lemma DeletedInTwo(s: State, id: string, mid: State, s': State)
    requires mid.users == s.users && mid.emailTo == s.emailTo && mid.lastSeen == s.lastSeen && mid.creds == s.creds
    requires CoreMoved(s.core, map[], s.Users(id).Keys, mid.core) && mid.reg == T.Next(s.reg, T.Delete(id))
    requires Forgot(mid, s.Users(id), s') && s'.reg == mid.reg && s'.core == mid.core
    requires s'.users == s.users - {id} && s'.forceInbounds == s.forceInbounds
    ensures DeleteDone(s, id, s')
  {
  }

  // ---- the credential index -----------------------------------------------

  /** A user's credentials under its email. */
  function Entries(u: User): map<Credential, string> {
    map c | c in Credentials(u) :: u.email
  }

  lemma ReindexDropsOne(creds: map<Credential, string>, gone: map<string, User>, creds1: map<Credential, string>,
                        e: string, u: User)
    requires Reindexed(creds, gone, map[], creds1) && e !in gone
    ensures Reindexed(creds, gone[e := u], map[], creds1 - Credentials(u))
  {
    forall c {
      CarriedGrows(gone, e, u, c);
    }
  }

  lemma ReindexEntersOne(creds: map<Credential, string>, gone: map<string, User>, entered: map<string, User>,
                         creds1: map<Credential, string>, u: User)
    requires Reindexed(creds, gone, entered, creds1)
    requires forall e, c :: e in entered && e != u.email && c in Credentials(entered[e]) ==> c !in Credentials(u)
    requires u.email in entered ==> entered[u.email] == u
    ensures Reindexed(creds, gone, entered[u.email := u], creds1 + Entries(u))
  {
    var entered', creds2 := entered[u.email := u], creds1 + Entries(u);
    forall e, c | e in entered' && c in Credentials(entered'[e]) ensures Lookup(creds2, c) == Some(e) {
      if e != u.email {
        assert e in entered && Lookup(creds1, c) == Some(e);
      }
    }
    forall c {
      CarriedGrows(entered, u.email, u, c);
    }
  }

  /** A batch index that was built without a clash shows that no credential is shared. */
  lemma IndexedMeansUnshared(set': map<string, User>, batch: map<Credential, string>)
    requires Reindexed(map[], map[], set', batch)
    ensures Unshared(set')
  {
    forall e, f, c | e in set' && f in set' && c in Credentials(set'[e]) && c in Credentials(set'[f]) ensures e == f {
      assert Lookup(batch, c) == Some(e) && Lookup(batch, c) == Some(f);
    }
  }

  lemma CheckedOneMore(set': map<string, User>, seen: set<string>, batch: map<Credential, string>,
                       creds: map<Credential, string>, id: string, e: string)
    requires Reindexed(map[], map[], Only(set', seen), batch) && Free(creds, id, Only(set', seen))
    requires e in set' && e !in seen && set'[e].email == e
    requires forall c :: c in Credentials(set'[e]) ==>
               (c in batch ==> batch[c] == e) && (c in creds ==> Prefix(id) <= creds[c])
    ensures Reindexed(map[], map[], Only(set', seen + {e}), batch + Entries(set'[e])) &&
            Free(creds, id, Only(set', seen + {e}))
  {
    var entered := Only(set', seen);
    OnlyGrows(set', seen, e);
    forall f, c | f in entered && f != e && c in Credentials(entered[f]) ensures c !in Credentials(set'[e]) {
      assert Lookup(batch, c) == Some(f);
    }
    ReindexEntersOne(map[], map[], entered, batch, set'[e]);
  }

  lemma ClashMeansShared(set': map<string, User>, seen: set<string>, batch: map<Credential, string>, e: string,
                         c: Credential)
    requires Reindexed(map[], map[], Only(set', seen), batch) && e in set' && c in Credentials(set'[e]) && c in batch &&
             batch[c] != e
    ensures !Unshared(set')
  {
    var entered := Only(set', seen);
    assert Lookup(batch, c) == Some(batch[c]);
    assert Carried(entered, c);
    var f :| f in entered && c in Credentials(entered[f]);
    assert Lookup(batch, c) == Some(f);
  }

  lemma TakenMeansUnfree(set': map<string, User>, creds: map<Credential, string>, id: string, e: string, c: Credential)
    requires e in set' && c in Credentials(set'[e]) && c in creds && !(Prefix(id) <= creds[c])
    ensures !Free(creds, id, set')
  {
  }

  // ---- a replacement under way --------------------------------------------

  lemma PartlyStarts(s: State, id: string, set': map<string, User>, s': State)
    requires s'.reg == s.reg && s'.forceInbounds == s.forceInbounds && s'.users == s.users
    requires Forgot(s, Dropped(s, id, set'), s') && CoreMoved(s.core, map[], Dropped(s, id, set').Keys, s'.core)
    ensures SetPartly(s, id, set', {}, s')
  {
    OnlyAll(set');
  }

  /** The core after one more user of the tenant, if the tenant is active and the core runs. */
  function Follow(core: Option<Core>, active: bool, u: User): Option<Core> {
    if active && core.Some? then Some(SyncCore(core.value, u)) else core
  }

  lemma FollowMoves(core: Option<Core>, active: bool, put: map<string, User>, out: set<string>, mid: Option<Core>,
                    u: User)
    requires CoreMoved(core, if active then put else map[], out, mid)
    ensures CoreMoved(core, if active then put[u.email := u] else map[], out, Follow(mid, active, u))
  {
  }

  lemma ReindexEntersNext(creds: map<Credential, string>, gone: map<string, User>, set': map<string, User>,
                          seen: set<string>, creds1: map<Credential, string>, e: string)
    requires Reindexed(creds, gone, Only(set', seen), creds1)
    requires Unshared(set') && e in set' && e !in seen && set'[e].email == e
    ensures Reindexed(creds, gone, Only(set', seen + {e}), creds1 + Entries(set'[e]))
  {
    OnlyGrows(set', seen, e);
    ReindexEntersOne(creds, gone, Only(set', seen), creds1, set'[e]);
  }

  lemma PartlyGrows(s: State, id: string, set': map<string, User>, seen: set<string>, mid: State, e: string, s': State)
    requires SetPartly(s, id, set', seen, mid) && Unshared(set') && e in set' && e !in seen && set'[e].email == e
    requires s' == mid.(emailTo := mid.emailTo[e := id], creds := mid.creds + Entries(set'[e]),
                        core := Follow(mid.core, s.IsActive(id), set'[e]))
    ensures SetPartly(s, id, set', seen + {e}, s')
  {
    var gone := Dropped(s, id, set');
    OnlyGrows(set', seen, e);
    ReindexEntersNext(s.creds, gone, set', seen, mid.creds, e);
    FollowMoves(s.core, s.IsActive(id), Only(set', seen), gone.Keys, mid.core, set'[e]);
  }

  lemma PartlyEnds(s: State, id: string, set': map<string, User>, mid: State)
    requires SetPartly(s, id, set', set'.Keys, mid)
    ensures SetDone(s, id, set', mid.(users := s.users[id := set']))
  {
    OnlyAll(set');
  }

  lemma MergedOne(s: State, id: string, u: User, s': State)
    requires s' == s.(users := s.users[id := s.Users(id)[u.email := u]], emailTo := s.emailTo[u.email := id],
                      creds := s.creds + Entries(u), core := Follow(s.core, s.IsActive(id), u))
    ensures AddDone(s, id, u, s')
  {
    ReindexEntersOne(s.creds, map[], map[], s.creds, u);
    NothingMoves(s.core);
    FollowMoves(s.core, s.IsActive(id), map[], {}, s.core, u);
  }

  lemma AddedNext(s: State, id: string, us: seq<User>, i: nat, mid: State, s': State)
    requires i < |us| && AddedAll(s, id, us[..i], mid) && AddOne(mid, id, us[i], s')
    ensures AddedAll(s, id, us[..i + 1], s')
  {
    assert us[..i + 1][..i] == us[..i];
    assert AddedOneMore(s, id, us[..i], us[i], s');
  }

  lemma AddedNone(s: State, id: string, us: seq<User>)
    ensures AddedAll(s, id, us[..0], Ensured(s, id))
  {
  }

  lemma FreeUser(creds: map<Credential, string>, id: string, u: User)
    ensures Free(creds, id, map[u.email := u]) <==>
            forall c :: c in Credentials(u) ==> c in creds ==> Prefix(id) <= creds[c]
  {
    var one := map[u.email := u];
    if Free(creds, id, one) {
      assert one[u.email] == u;
    }
  }

  // ---- re-applying a configuration ----------------------------------------

  /** The users of some tenants are in. */
  ghost predicate Reapplied(s: State, ids: set<string>, started: Option<Core>, core: Option<Core>) {
    exists m :: Members(s, ids, m) && CoreMoved(started, m, {}, core)
  }

  lemma ReappliedNone(s: State, started: Option<Core>)
    ensures Reapplied(s, {}, started, started)
  {
    NothingMoves(started);
    assert Members(s, {}, map[]);
  }

  lemma ReappliedNext(s: State, ids: set<string>, started: Option<Core>, mid: Option<Core>, id: string,
                      core: Option<Core>)
    requires Reapplied(s, ids, started, mid) && CoreMoved(mid, s.Users(id), {}, core)
    ensures Reapplied(s, ids + {id}, started, core)
  {
    var m :| Members(s, ids, m) && CoreMoved(started, m, {}, mid);
    MembersGrow(s, ids, m, id);
    PutsCompose(started, m, mid, s.Users(id), core);
  }

  /** Some users of active tenants are in, and nobody else. */
  ghost predicate PartlyApplied(s: State, started: Option<Core>, core: Option<Core>) {
    exists m :: OfActive(s, m) && CoreMoved(started, m, {}, core)
  }

  ghost predicate OfActive(s: State, m: map<string, User>) {
    forall e :: e in m ==> exists id :: id in ActiveIds(s) && e in s.Users(id) && m[e] == s.Users(id)[e]
  }

  lemma OfActiveGrows(s: State, m: map<string, User>, id: string, seen: set<string>)
    requires OfActive(s, m) && id in ActiveIds(s)
    ensures OfActive(s, m + Only(s.Users(id), seen))
  {
    var all := m + Only(s.Users(id), seen);
    forall e | e in all ensures exists t :: t in ActiveIds(s) && e in s.Users(t) && all[e] == s.Users(t)[e] {
      if e in Only(s.Users(id), seen) {
        assert e in s.Users(id) && all[e] == s.Users(id)[e];
      } else {
        var t :| t in ActiveIds(s) && e in s.Users(t) && m[e] == s.Users(t)[e];
      }
    }
  }

  lemma MembersAreOfActive(s: State, ids: set<string>, m: map<string, User>)
    requires Members(s, ids, m) && ids <= ActiveIds(s)
    ensures OfActive(s, m)
  {
    forall e | e in m ensures exists t :: t in ActiveIds(s) && e in s.Users(t) && m[e] == s.Users(t)[e] {
      var t :| t in ids && e in s.Users(t) && m[e] == s.Users(t)[e];
    }
  }

  lemma RefusedAt(s: State, ids: set<string>, started: Option<Core>, mid: Option<Core>, id: string, seen: set<string>,
                  core: Option<Core>)
    requires Reapplied(s, ids, started, mid) && ids <= ActiveIds(s) && id in ActiveIds(s)
    requires CoreMoved(mid, Only(s.Users(id), seen), {}, core)
    ensures PartlyApplied(s, started, core)
  {
    var m :| Members(s, ids, m) && CoreMoved(started, m, {}, mid);
    MembersAreOfActive(s, ids, m);
    OfActiveGrows(s, m, id, seen);
    PutsCompose(started, m, mid, Only(s.Users(id), seen), core);
    AppliedBy(s, started, m + Only(s.Users(id), seen), core);
  }

  lemma AppliedBy(s: State, started: Option<Core>, m: map<string, User>, core: Option<Core>)
    requires OfActive(s, m) && CoreMoved(started, m, {}, core)
    ensures PartlyApplied(s, started, core)
  {
  }

  /** The active tenants among those visited. */
  ghost function ActiveAmong(s: State, done: set<string>): set<string> {
    ActiveIds(s) * done
  }

  lemma ActiveGrows(s: State, done: set<string>, id: string)
    requires id in s.users
    ensures ActiveAmong(s, done + {id}) == if s.IsActive(id) then ActiveAmong(s, done) + {id} else ActiveAmong(s, done)
  {
  }

  lemma ReappliedAll(s: State, started: Option<Core>, s': State)
    requires Reapplied(s, ActiveAmong(s, s.users.Keys), started, s'.core)
    requires SameUsers(s, s') && s'.reg == s.reg && s'.lastSeen == s.lastSeen
    requires started.Some? ==> FreshCore(started.value)
    ensures ConfigDone(s, started, s')
  {
    assert ActiveAmong(s, s.users.Keys) == ActiveIds(s);
  }

  // ---- the poll -----------------------------------------------------------

  /** The charge for the emails read so far. */
  ghost function ChargeOver(s: State, totals: map<string, nat>, id: string, read: set<string>): int {
    Sum(EmailDelta(s, totals), Polled(s, totals, id) * read)
  }

  ghost predicate DeltasSoFar(s: State, totals: map<string, nat>, read: set<string>, deltas: map<string, int>) {
    && (forall id :: (if id in deltas then deltas[id] else 0) == ChargeOver(s, totals, id, read))
    && (forall id :: id in deltas ==> exists e :: e in s.emailTo && s.emailTo[e] == id)
  }

  lemma DeltasGrow(s: State, totals: map<string, nat>, read: set<string>, deltas: map<string, int>, e: string)
    requires DeltasSoFar(s, totals, read, deltas) && e in totals && e !in read
    ensures DeltasSoFar(s, totals, read + {e}, AddDelta(s, totals, deltas, e))
  {
    var deltas' := AddDelta(s, totals, deltas, e);
    forall id ensures (if id in deltas' then deltas'[id] else 0) == ChargeOver(s, totals, id, read + {e}) {
      var p := Polled(s, totals, id);
      assert (if id in deltas then deltas[id] else 0) == ChargeOver(s, totals, id, read);
      if e in p {
        assert p * (read + {e}) - {e} == p * read;
        SumTakes(EmailDelta(s, totals), p * (read + {e}), e);
      } else {
        assert p * (read + {e}) == p * read;
      }
    }
  }

  function AddDelta(s: State, totals: map<string, nat>, deltas: map<string, int>, e: string): map<string, int>
    requires e in totals
  {
    if e in s.emailTo then
      deltas[s.emailTo[e] :=
        (if s.emailTo[e] in deltas then deltas[s.emailTo[e]] else 0) + Delta(Lookup(s.lastSeen, e), totals[e])]
    else deltas
  }

  /** A tenant's turn depends only on the last reading of its email. */
  lemma AddDeltaLater(s: State, mid: State, totals: map<string, nat>, deltas: map<string, int>, e: string)
    requires e in totals && mid.emailTo == s.emailTo && Lookup(mid.lastSeen, e) == Lookup(s.lastSeen, e)
    ensures AddDelta(mid, totals, deltas, e) == AddDelta(s, totals, deltas, e)
  {
  }

  /** The readings of the emails polled so far are remembered. */
  ghost predicate Remembered(last: map<string, nat>, totals: map<string, nat>, read: set<string>,
                             last': map<string, nat>) {
    forall e :: Lookup(last', e) == if e in read && e in totals then Some(totals[e]) else Lookup(last, e)
  }

  lemma RememberedNext(last: map<string, nat>, totals: map<string, nat>, read: set<string>, last': map<string, nat>,
                       e: string)
    requires Remembered(last, totals, read, last') && e in totals && e !in read
    ensures Lookup(last', e) == Lookup(last, e) && Remembered(last, totals, read + {e}, last'[e := totals[e]])
  {
  }

  lemma AllRead(s: State, totals: map<string, nat>, deltas: map<string, int>, id: string)
    requires DeltasSoFar(s, totals, totals.Keys, deltas)
    ensures (if id in deltas then deltas[id] else 0) == Charge(s, totals, id) >= 0
  {
    assert Polled(s, totals, id) * totals.Keys == Polled(s, totals, id);
    ChargeNonNegative(s, totals, id);
  }

  lemma DeltasAreNatural(s: State, totals: map<string, nat>, deltas: map<string, int>)
    requires DeltasSoFar(s, totals, totals.Keys, deltas)
    ensures forall id :: id in deltas ==> deltas[id] >= 0
  {
    forall id | id in deltas ensures deltas[id] >= 0 {
      AllRead(s, totals, deltas, id);
    }
  }

  lemma GoneTenantHasUser(s: State, totals: map<string, nat>, deltas: map<string, int>, byID: map<string, T.Tenant>)
    requires DeltasSoFar(s, totals, totals.Keys, deltas) && exists id :: id in deltas && id !in byID
    ensures exists e :: e in s.emailTo && s.emailTo[e] !in byID
  {
  }

  lemma NothingRead(s: State, totals: map<string, nat>)
    ensures DeltasSoFar(s, totals, {}, map[])
  {
  }

  /** The registry once the deltas of some tenants are added. */
  ghost predicate ChargedSoFar(r: T.Registry, deltas: map<string, int>, done: set<string>, r': T.Registry) {
    && r'.byKey == r.byKey && r'.byID.Keys == r.byID.Keys && r'.saved == r'.byID
    && forall id :: id in r.byID ==>
         r'.byID[id] ==
         r.byID[id].(usedBytes := r.byID[id].usedBytes + if id in done && id in deltas then deltas[id] else 0)
  }

  lemma ChargesGrow(r: T.Registry, deltas: map<string, int>, done: set<string>, r': T.Registry, id: string)
    requires T.Consistent(r) && ChargedSoFar(r, deltas, done, r') && id in deltas && id !in done && id in r.byID &&
             deltas[id] >= 0
    ensures ChargedSoFar(r, deltas, done + {id}, T.Next(r', T.AddUsage(id, deltas[id])))
  {
  }

  /**
   * The accounting as far as the tenants of `done`, when a later one is gone: the readings are remembered all the same.
   */
  ghost predicate AccountedPartly(s: State, rows: seq<Row>, done: set<string>, s': State) {
    && SameUsers(s, s') && s'.core == s.core
    && s'.reg.byKey == s.reg.byKey && s'.reg.byID.Keys == s.reg.byID.Keys
    && (forall id :: id in s.reg.byID ==>
          s'.reg.byID[id] == s.reg.byID[id].(usedBytes := s.reg.byID[id].usedBytes +
                                                          if id in done then Charge(s, Totals(rows), id) else 0))
    && forall e :: Lookup(s'.lastSeen, e) == if e in Totals(rows) then Some(Totals(rows)[e]) else Lookup(s.lastSeen, e)
  }

  lemma ChargedPartly(s: State, totals: map<string, nat>, deltas: map<string, int>, done: set<string>, reg': T.Registry,
                      id: string)
    requires DeltasSoFar(s, totals, totals.Keys, deltas) && ChargedSoFar(s.reg, deltas, done, reg') &&
             done <= deltas.Keys
    requires id in s.reg.byID
    ensures id in reg'.byID &&
            reg'.byID[id] ==
            s.reg.byID[id].(usedBytes := s.reg.byID[id].usedBytes + if id in done then Charge(s, totals, id) else 0)
  {
    AllRead(s, totals, deltas, id);
  }

  /** Every tenant is charged once all deltas are added. */
  lemma AllCharged(s: State, totals: map<string, nat>, deltas: map<string, int>, reg': T.Registry)
    requires DeltasSoFar(s, totals, totals.Keys, deltas) && ChargedSoFar(s.reg, deltas, deltas.Keys, reg')
    ensures Charged(s, totals, reg')
  {
    forall id | id in s.reg.byID
      ensures reg'.byID[id] == s.reg.byID[id].(usedBytes := s.reg.byID[id].usedBytes + Charge(s, totals, id))
    {
      ChargedWhollyAt(s, totals, deltas, reg', id);
    }
  }

  lemma ChargedWhollyAt(s: State, totals: map<string, nat>, deltas: map<string, int>, reg': T.Registry, id: string)
    requires DeltasSoFar(s, totals, totals.Keys, deltas) && ChargedSoFar(s.reg, deltas, deltas.Keys, reg')
    requires id in s.reg.byID
    ensures id in reg'.byID
    ensures reg'.byID[id] == s.reg.byID[id].(usedBytes := s.reg.byID[id].usedBytes + Charge(s, totals, id))
  {
    AllRead(s, totals, deltas, id);
  }

  lemma AccountedBy(s: State, rows: seq<Row>, deltas: map<string, int>, done: set<string>, s': State)
    requires SameUsers(s, s') && s'.core == s.core
    requires Remembered(s.lastSeen, Totals(rows), Totals(rows).Keys, s'.lastSeen)
    requires DeltasSoFar(s, Totals(rows), Totals(rows).Keys, deltas)
    requires ChargedSoFar(s.reg, deltas, done, s'.reg) && done <= deltas.Keys
    ensures AccountedPartly(s, rows, done, s')
  {
    forall id | id in s.reg.byID
      ensures s'.reg.byID[id] == s.reg.byID[id].(usedBytes := s.reg.byID[id].usedBytes +
                                                              if id in done then Charge(s, Totals(rows), id) else 0)
    {
      ChargedPartly(s, Totals(rows), deltas, done, s'.reg, id);
    }
  }

  lemma AccountedWholly(s: State, rows: seq<Row>, deltas: map<string, int>, s': State)
    requires SameUsers(s, s') && s'.core == s.core
    requires Remembered(s.lastSeen, Totals(rows), Totals(rows).Keys, s'.lastSeen)
    requires DeltasSoFar(s, Totals(rows), Totals(rows).Keys, deltas) && ChargedSoFar(s.reg, deltas, deltas.Keys, s'.reg)
    ensures Accounted(s, Some(rows), s')
  {
    AllCharged(s, Totals(rows), deltas, s'.reg);
  }

  // ---- enforcement --------------------------------------------------------

  function Ids(changes: seq<T.Tenant>): set<string> {
    set i | 0 <= i < |changes| :: changes[i].id
  }

  lemma IdsGrow(changes: seq<T.Tenant>, i: nat)
    requires i < |changes|
    ensures Ids(changes[..i + 1]) == Ids(changes[..i]) + {changes[i].id}
  {
  }

  lemma EvictedNext(s: State, changes: seq<T.Tenant>, i: nat, core: Option<Core>, mid: Option<Core>,
                    core': Option<Core>)
    requires i < |changes| && CoreMoved(core, map[], Emails(s, Ids(changes[..i])), mid)
    requires CoreMoved(mid, map[], s.Users(changes[i].id).Keys, core')
    ensures CoreMoved(core, map[], Emails(s, Ids(changes[..i + 1])), core')
  {
    IdsGrow(changes, i);
    EmailsGrow(s, Ids(changes[..i]), changes[i].id);
    OutsCompose(core, Emails(s, Ids(changes[..i])), mid, s.Users(changes[i].id).Keys, core');
  }

  lemma IdsAreFallen(before: map<string, T.Tenant>, now: int, changes: seq<T.Tenant>)
    requires forall id :: id in before ==> before[id].id == id
    requires R.Flips(before, before.Keys, now, changes)
    ensures Ids(changes) == T.Fallen(before, now)
  {
  }
}
