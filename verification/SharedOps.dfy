/** The manager's operations as steps, and the invariant over every run. */
module SharedOps {
  import opened Base
  import opened Common
  import opened XrayAccounts
  import opened XrayInbounds
  import opened SharedState
  import T = Tenants

  // ---- the live core ------------------------------------------------------

  /** The inbound after some users are synced in and some emails are taken out. */
  ghost predicate Moved(ib: Inbound, put: map<string, User>, out: set<string>, ib': Inbound) {
    && ib'.serve == ib.serve
    && forall e :: ib'.At(e) == if e in put then ib.serve(put[e]) else if e in out then None else ib.At(e)
  }

  ghost predicate CoreMoved(core: Option<Core>, put: map<string, User>, out: set<string>, core': Option<Core>) {
    && core'.Some? == core.Some?
    && (core.Some? ==> |core'.value| == |core.value|)
    && (core.Some? ==> forall i :: 0 <= i < |core.value| ==> Moved(core.value[i], put, out, core'.value[i]))
  }

  /** If the due users change just as the core moves, the core stays exact. */
  lemma MoveKeepsExact(s: State, put: map<string, User>, out: set<string>, s': State)
    requires Exact(s) && CoreMoved(s.core, put, out, s'.core)
    requires forall e :: DueUser(s', e) == if e in put then Some(put[e]) else if e in out then None else DueUser(s, e)
    ensures Exact(s')
  {
  }

  /** SyncUser at every inbound. */
  function SyncCore(core: Core, u: User): Core {
    seq(|core|, i requires 0 <= i < |core| => core[i].(clients := Synced(core[i].serve, core[i].clients, u)))
  }

  /** removeFromCore: an update with the user's inbounds emptied. */
  function Unassigned(u: User): User {
    u.(inbounds := [])
  }

  // ---- SetTenantUsers -----------------------------------------------------

  /** buildUser */
  function BuildUser(s: State, id: string, u: User): User {
    User(NamespacedEmail(id, u.email), u.proxies, if s.forceInbounds != [] then s.forceInbounds else u.inbounds)
  }

  /** The new user set; a later user with the same email replaces an earlier one. */
  function NewSet(s: State, id: string, users: seq<User>): map<string, User> {
    if users == [] then map[]
    else
      var u := users[|users| - 1];
      NewSet(s, id, users[..|users| - 1])[NamespacedEmail(id, u.email) := BuildUser(s, id, u)]
  }

  lemma {:induction false} NewSetIsNamed(s: State, id: string, users: seq<User>)
    ensures forall e :: e in NewSet(s, id, users) ==> Prefix(id) <= e && NewSet(s, id, users)[e].email == e
  {
    if users != [] {
      NewSetIsNamed(s, id, users[..|users| - 1]);
    }
  }

  // ---- whom a request stores ----------------------------------------------

  /** The name under which a tenant's user is kept. */
  ghost predicate Names(id: string, u: User, e: string) {
    e == "t" + id + "." + u.email
  }

  ghost predicate NamesSome(id: string, us: seq<User>, e: string) {
    exists u :: u in us && Names(id, u, e)
  }

  /** No later user of the list has the same email. */
  ghost predicate LastPlace(us: seq<User>, i: int) {
    0 <= i < |us| && forall j :: i < j < |us| ==> us[j].email != us[i].email
  }

  /** What is kept of a request's user: its proxies, and the forced inbounds if there are any, else its own. */
  ghost predicate KeptAs(force: seq<string>, id: string, u: User, kept: User) {
    && Names(id, u, kept.email) && kept.proxies == u.proxies
    && kept.inbounds == if |force| > 0 then force else u.inbounds
  }

  /** `after` is `before` and the users of the list, for each email the last of them; everybody else is as before. */
  ghost predicate Merges(force: seq<string>, id: string, us: seq<User>, before: map<string, User>,
                         after: map<string, User>) {
    && (forall e :: e in after <==> e in before || NamesSome(id, us, e))
    && (forall i, e :: LastPlace(us, i) && Names(id, us[i], e) ==> e in after && KeptAs(force, id, us[i], after[e]))
    && (forall e :: e in before && !NamesSome(id, us, e) ==> after[e] == before[e])
  }

  lemma NameIsTheirs(id: string, u: User, v: User, e: string)
    requires Names(id, u, e) && Names(id, v, e)
    ensures u.email == v.email
  {
    assert e[|id| + 2..] == u.email;
    assert e[|id| + 2..] == v.email;
  }

  lemma NamesOneMore(id: string, us: seq<User>, u: User, e: string)
    ensures NamesSome(id, us + [u], e) <==> NamesSome(id, us, e) || Names(id, u, e)
  {
    assert u in us + [u] && forall v :: v in us ==> v in us + [u];
  }

  lemma MergesOneMore(force: seq<string>, id: string, us: seq<User>, before: map<string, User>,
                      mid: map<string, User>, u: User, kept: User)
    requires Merges(force, id, us, before, mid) && KeptAs(force, id, u, kept)
    ensures Merges(force, id, us + [u], before, mid[kept.email := kept])
  {
    forall e ensures NamesSome(id, us + [u], e) <==> NamesSome(id, us, e) || e == kept.email {
      NamesOneMore(id, us, u, e);
    }
    forall i, e | LastPlace(us + [u], i) && Names(id, (us + [u])[i], e)
      ensures e in mid[kept.email := kept] && KeptAs(force, id, (us + [u])[i], mid[kept.email := kept][e])
    {
      LastKept(force, id, us, before, mid, u, kept, i, e);
    }
  }

  lemma LastKept(force: seq<string>, id: string, us: seq<User>, before: map<string, User>, mid: map<string, User>,
                 u: User, kept: User, i: int, e: string)
    requires Merges(force, id, us, before, mid) && KeptAs(force, id, u, kept)
    requires LastPlace(us + [u], i) && Names(id, (us + [u])[i], e)
    ensures e in mid[kept.email := kept] && KeptAs(force, id, (us + [u])[i], mid[kept.email := kept][e])
  {
    LastBefore(us, u, i);
    if e == kept.email {
      NameIsTheirs(id, u, (us + [u])[i], e);
    }
  }

  lemma LastBefore(us: seq<User>, u: User, i: int)
    requires LastPlace(us + [u], i)
    ensures i == |us| || (LastPlace(us, i) && us[i].email != u.email)
  {
    var all := us + [u];
    assert all[|us|] == u && forall j :: 0 <= j < |us| ==> all[j] == us[j];
  }

  /** The new set is exactly the list's users. */
  lemma {:induction false} NewSetExactly(s: State, id: string, users: seq<User>)
    ensures Merges(s.forceInbounds, id, users, map[], NewSet(s, id, users))
  {
    if users != [] {
      var init, u := users[..|users| - 1], users[|users| - 1];
      NewSetExactly(s, id, init);
      assert init + [u] == users;
      MergesOneMore(s.forceInbounds, id, init, map[], NewSet(s, id, init), u, BuildUser(s, id, u));
    }
  }

  /** No credential is shared by two users of the set. */
  ghost predicate Unshared(set': map<string, User>) {
    forall e, f, c :: e in set' && f in set' && c in Credentials(set'[e]) && c in Credentials(set'[f]) ==> e == f
  }

  /** No credential of the set is indexed under another tenant's name. */
  ghost predicate Free(creds: map<Credential, string>, id: string, set': map<string, User>) {
    forall e, c :: e in set' && c in Credentials(set'[e]) && c in creds ==> Prefix(id) <= creds[c]
  }

  /** Some user of the set carries the credential. */
  ghost predicate Carried(set': map<string, User>, c: Credential) {
    exists e :: e in set' && c in Credentials(set'[e])
  }

  lemma CarriedGrows(set': map<string, User>, e: string, u: User, c: Credential)
    requires e in set' ==> set'[e] == u
    ensures Carried(set'[e := u], c) <==> Carried(set', c) || c in Credentials(u)
  {
    var grown := set'[e := u];
    assert grown[e] == u;
    if Carried(set', c) {
      var f :| f in set' && c in Credentials(set'[f]);
      assert f in grown && grown[f] == set'[f];
    }
    if Carried(grown, c) {
      var f :| f in grown && c in Credentials(grown[f]);
      assert f == e || (f in set' && set'[f] == grown[f]);
    }
  }

  /** The credential index after dropping some users and entering others. */
  ghost predicate Reindexed(creds: map<Credential, string>, dropped: map<string, User>, entered: map<string, User>,
                            creds': map<Credential, string>) {
    && (forall e, c :: e in entered && c in Credentials(entered[e]) ==> Lookup(creds', c) == Some(e))
    && (forall c :: !Carried(entered, c) ==>
          Lookup(creds', c) == if Carried(dropped, c) then None else Lookup(creds, c))
  }

  /** The users a replacement drops. */
  function Dropped(s: State, id: string, set': map<string, User>): map<string, User> {
    s.Users(id) - set'.Keys
  }

  ghost predicate SetDone(s: State, id: string, set': map<string, User>, s': State) {
    var dropped := Dropped(s, id, set');
    && s'.reg == s.reg && s'.forceInbounds == s.forceInbounds
    && s'.users == s.users[id := set']
    && (forall e ::
          Lookup(s'.emailTo, e) ==
          if e in set' then Some(id) else if e in dropped then None else Lookup(s.emailTo, e))
    && (forall e :: Lookup(s'.lastSeen, e) == if e in dropped then None else Lookup(s.lastSeen, e))
    && Reindexed(s.creds, dropped, set', s'.creds)
    && CoreMoved(s.core, if s.IsActive(id) then set' else map[], dropped.Keys, s'.core)
  }

  /** The part of a user set at some emails. */
  function Only(m: map<string, User>, es: set<string>): map<string, User> {
    map e | e in m && e in es :: m[e]
  }

  /** A replacement under way: the old users are dropped and `seen` entered, and the stored set is still the old one. */
  ghost predicate SetPartly(s: State, id: string, set': map<string, User>, seen: set<string>, s': State) {
    var dropped := Dropped(s, id, set');
    && seen <= set'.Keys
    && s'.reg == s.reg && s'.forceInbounds == s.forceInbounds && s'.users == s.users
    && (forall e ::
          Lookup(s'.emailTo, e) ==
          if e in seen then Some(id) else if e in dropped then None else Lookup(s.emailTo, e))
    && (forall e :: Lookup(s'.lastSeen, e) == if e in dropped then None else Lookup(s.lastSeen, e))
    && Reindexed(s.creds, dropped, Only(set', seen), s'.creds)
    && CoreMoved(s.core, if s.IsActive(id) then Only(set', seen) else map[], dropped.Keys, s'.core)
  }

  /** The set is acceptable: its tenant is known, and its credentials are neither shared nor another tenant's. */
  ghost predicate Acceptable(s: State, id: string, set': map<string, User>) {
    id in s.reg.byID && Unshared(set') && Free(s.creds, id, set')
  }

  /** An email named for one tenant is no other tenant's user. */
  lemma NamesStayApart(s: State, id: string, e: string, other: string)
    requires Named(s) && id in s.reg.byID && Prefix(id) <= e && other in s.users && e in s.users[other]
    ensures other == id
  {
    PrefixIsOneTenants(id, other, e);
  }

  ghost predicate WellNamed(id: string, set': map<string, User>) {
    forall e :: e in set' ==> Prefix(id) <= e && set'[e].email == e
  }

  lemma SetKeepsInverse(s: State, id: string, set': map<string, User>, s': State)
    requires Named(s) && Inverse(s) && id in s.reg.byID && SetDone(s, id, set', s') && WellNamed(id, set')
    ensures Named(s') && Inverse(s')
  {
    forall e, t ensures Lookup(s'.emailTo, e) == Some(t) <==> t in s'.users && e in s'.users[t] {
      InverseAfterSet(s, id, set', s', e, t);
    }
  }

  lemma InverseAfterSet(s: State, id: string, set': map<string, User>, s': State, e: string, t: string)
    requires Named(s) && Inverse(s) && id in s.reg.byID && WellNamed(id, set')
    requires s'.users == s.users[id := set']
    requires Lookup(s'.emailTo, e) ==
             if e in set' then Some(id) else if e in Dropped(s, id, set') then None else Lookup(s.emailTo, e)
    ensures Lookup(s'.emailTo, e) == Some(t) <==> t in s'.users && e in s'.users[t]
  {
    assert Lookup(s.emailTo, e) == Some(t) <==> t in s.users && e in s.users[t];
    if e in set' {
      if t in s.users && e in s.users[t] {
        NamesStayApart(s, id, e, t);
      }
    } else if e in s.Users(id) {
      assert Lookup(s.emailTo, e) == Some(id);
    }
  }

  /** Whatever one tenant drops and enters, the credentials of the others stay indexed. */
  lemma OthersKeepCreds(s: State, id: string, gone: map<string, User>, entered: map<string, User>,
                        creds': map<Credential, string>,
                        t: string, e: string, c: Credential)
    requires Named(s) && CredsSound(s) && id in s.reg.byID && Free(s.creds, id, entered)
    requires forall f :: f in gone ==> id in s.users && f in s.users[id] && gone[f] == s.users[id][f]
    requires Reindexed(s.creds, gone, entered, creds')
    requires t != id && t in s.users && e in s.users[t] && c in Credentials(s.users[t][e])
    ensures c in creds' && Prefix(t) <= creds'[c]
  {
    if Carried(entered, c) {
      PrefixIsOneTenants(id, t, s.creds[c]);
    }
    if Carried(gone, c) {
      var f :| f in gone && c in Credentials(gone[f]);
      CredentialsIsolated(s, id, f, t, e, c);
    }
    assert Lookup(creds', c) == Lookup(s.creds, c);
  }

  /** The tenant's own users stay indexed if each was entered, or nothing was dropped. */
  lemma OwnKeepCreds(s: State, id: string, gone: map<string, User>, entered: map<string, User>,
                     creds': map<Credential, string>,
                     e: string, u: User, c: Credential)
    requires CredsSound(s) && Reindexed(s.creds, gone, entered, creds') && c in Credentials(u)
    requires forall f :: f in entered ==> Prefix(id) <= f
    requires (e in entered && entered[e] == u) ||
             (gone == map[] && id in s.users && e in s.users[id] && s.users[id][e] == u)
    ensures c in creds' && Prefix(id) <= creds'[c]
  {
    if Carried(entered, c) {
      var f :| f in entered && c in Credentials(entered[f]);
      assert Lookup(creds', c) == Some(f);
    } else {
      assert Lookup(creds', c) == Lookup(s.creds, c);
    }
  }

  /** One tenant's users change to `now`: all indexed if every changed user was entered, or nothing was dropped. */
  lemma ChangeKeepsCreds(s: State, id: string, gone: map<string, User>, entered: map<string, User>,
                         now: map<string, User>, s': State)
    requires Named(s) && CredsSound(s) && id in s.reg.byID && Free(s.creds, id, entered)
    requires forall f :: f in gone ==> id in s.users && f in s.users[id] && gone[f] == s.users[id][f]
    requires Reindexed(s.creds, gone, entered, s'.creds)
    requires forall f :: f in entered ==> Prefix(id) <= f
    requires forall e :: e in now ==>
               (e in entered && entered[e] == now[e]) ||
               (gone == map[] && id in s.users && e in s.users[id] && s.users[id][e] == now[e])
    requires forall t :: t in s'.users ==> s'.users[t] == if t == id then now else s.Users(t)
    ensures CredsSound(s')
  {
    forall t, e, c | t in s'.users && e in s'.users[t] && c in Credentials(s'.users[t][e])
      ensures c in s'.creds && Prefix(t) <= s'.creds[c]
    {
      if t == id {
        OwnKeepCreds(s, id, gone, entered, s'.creds, e, now[e], c);
      } else {
        OthersKeepCreds(s, id, gone, entered, s'.creds, t, e, c);
      }
    }
  }

  lemma DueAfterSet(s: State, id: string, set': map<string, User>, s': State, e: string)
    requires Named(s) && Inverse(s) && id in s.reg.byID && WellNamed(id, set')
    requires s'.reg == s.reg && s'.users == s.users[id := set']
    requires Lookup(s'.emailTo, e) ==
             if e in set' then Some(id) else if e in Dropped(s, id, set') then None else Lookup(s.emailTo, e)
    ensures DueUser(s', e) == if e in set' && s.IsActive(id) then Some(set'[e])
                              else if e in Dropped(s, id, set') then None else DueUser(s, e)
  {
    if e in s.emailTo {
      assert Lookup(s.emailTo, e) == Some(s.emailTo[e]);
    }
    if e in set' && e in s.emailTo {
      NamesStayApart(s, id, e, s.emailTo[e]);
    }
  }

  /** Replacing a tenant's users keeps everything. */
  lemma SetKeeps(s: State, id: string, set': map<string, User>, s': State)
    requires Invariant(s) && Acceptable(s, id, set') && SetDone(s, id, set', s') && WellNamed(id, set')
    ensures Invariant(s')
  {
    SetKeepsInverse(s, id, set', s');
    ChangeKeepsCreds(s, id, Dropped(s, id, set'), set', set', s');
    SetKeepsExact(s, id, set', s');
  }

  lemma SetKeepsExact(s: State, id: string, set': map<string, User>, s': State)
    requires Named(s) && Inverse(s) && Exact(s) && id in s.reg.byID && SetDone(s, id, set', s') && WellNamed(id, set')
    ensures Exact(s')
  {
    forall e {
      DueAfterSet(s, id, set', s', e);
    }
    MoveKeepsExact(s, if s.IsActive(id) then set' else map[], Dropped(s, id, set').Keys, s');
  }

  // ---- AddTenantUsers -----------------------------------------------------

  /** One turn of the loop: the user is merged in, indexed and synced. */
  ghost predicate AddDone(s: State, id: string, u: User, s': State) {
    && s'.reg == s.reg && s'.forceInbounds == s.forceInbounds && s'.lastSeen == s.lastSeen
    && s'.users == s.users[id := s.Users(id)[u.email := u]]
    && (forall e :: Lookup(s'.emailTo, e) == if e == u.email then Some(id) else Lookup(s.emailTo, e))
    && Reindexed(s.creds, map[], map[u.email := u], s'.creds)
    && CoreMoved(s.core, if s.IsActive(id) then map[u.email := u] else map[], {}, s'.core)
  }

  lemma AddLookup(s: State, id: string, u: User, s': State, e: string)
    requires Inverse(s) && Lookup(s'.emailTo, e) == if e == u.email then Some(id) else Lookup(s.emailTo, e)
    ensures var set' := s.Users(id)[u.email := u];
            Dropped(s, id, set') == map[] &&
            Lookup(s'.emailTo, e) ==
            if e in set' then Some(id) else if e in Dropped(s, id, set') then None else Lookup(s.emailTo, e)
  {
  }

  lemma InverseAfterAdd(s: State, id: string, u: User, s': State)
    requires Named(s) && Inverse(s) && id in s.reg.byID && Prefix(id) <= u.email && AddDone(s, id, u, s')
    ensures Named(s') && Inverse(s')
  {
    forall e, t ensures Lookup(s'.emailTo, e) == Some(t) <==> t in s'.users && e in s'.users[t] {
      AddLookup(s, id, u, s', e);
      InverseAfterSet(s, id, s.Users(id)[u.email := u], s', e, t);
    }
  }

  lemma DueAfterAdd(s: State, id: string, u: User, s': State, e: string)
    requires Named(s) && Inverse(s) && id in s.reg.byID && Prefix(id) <= u.email
    requires s'.reg == s.reg && s'.users == s.users[id := s.Users(id)[u.email := u]]
    requires Lookup(s'.emailTo, e) == if e == u.email then Some(id) else Lookup(s.emailTo, e)
    ensures DueUser(s', e) == if e == u.email && s.IsActive(id) then Some(u) else DueUser(s, e)
  {
    AddLookup(s, id, u, s', e);
    DueAfterSet(s, id, s.Users(id)[u.email := u], s', e);
    if e in s.Users(id) {
      assert Lookup(s.emailTo, e) == Some(id);
    }
  }

  /** Merging one user keeps everything. */
  lemma AddKeeps(s: State, id: string, u: User, s': State)
    requires Invariant(s) && id in s.reg.byID && Prefix(id) <= u.email
    requires Free(s.creds, id, map[u.email := u]) && AddDone(s, id, u, s')
    ensures Invariant(s')
  {
    InverseAfterAdd(s, id, u, s');
    ChangeKeepsCreds(s, id, map[], map[u.email := u], s.Users(id)[u.email := u], s');
    AddKeepsExact(s, id, u, s');
  }

  lemma AddKeepsExact(s: State, id: string, u: User, s': State)
    requires Named(s) && Inverse(s) && Exact(s) && id in s.reg.byID && Prefix(id) <= u.email && AddDone(s, id, u, s')
    ensures Exact(s')
  {
    forall e {
      DueAfterAdd(s, id, u, s', e);
    }
    MoveKeepsExact(s, if s.IsActive(id) then map[u.email := u] else map[], {}, s');
  }

  // ---- status changes -----------------------------------------------------

  /** Only the registry, the last readings and the core change. */
  ghost predicate SameUsers(s: State, s': State) {
    s'.users == s.users && s'.emailTo == s.emailTo && s'.creds == s.creds && s'.forceInbounds == s.forceInbounds
  }

  /** A change of registry that leaves names alone keeps all but exactness. */
  lemma SameUsersKeeps(s: State, s': State)
    requires Named(s) && Inverse(s) && CredsSound(s) && SameUsers(s, s')
    requires forall id :: id in s.users ==> id in s'.reg.byID
    requires forall id :: id in s'.reg.byID ==> Dotless(id)
    ensures Named(s') && Inverse(s') && CredsSound(s')
  {
  }

  /** The emails of some tenants' users. */
  function Emails(s: State, ids: set<string>): set<string> {
    set id, e | id in ids && e in s.Users(id) :: e
  }

  lemma EmailsOfOne(s: State, id: string)
    ensures Emails(s, {id}) == s.Users(id).Keys
  {
  }

  /** The users of some tenants, all together. */
  ghost predicate Members(s: State, ids: set<string>, m: map<string, User>) {
    && m.Keys == Emails(s, ids)
    && forall e :: e in m ==> exists id :: id in ids && e in s.Users(id) && m[e] == s.Users(id)[e]
  }

  /** By the email index, an email is one of these tenants' exactly if its tenant is among them. */
  lemma EmailsByIndex(s: State, ids: set<string>, e: string)
    requires Inverse(s)
    ensures e in Emails(s, ids) <==> e in s.emailTo && s.emailTo[e] in ids
  {
    if e in s.emailTo {
      assert Lookup(s.emailTo, e) == Some(s.emailTo[e]);
      assert s.emailTo[e] in ids ==> e in s.Users(s.emailTo[e]);
    }
    if e in Emails(s, ids) {
      var id :| id in ids && e in s.Users(id);
      assert Lookup(s.emailTo, e) == Some(id);
    }
  }

  lemma DueAfterFall(s: State, ids: set<string>, s': State, e: string)
    requires Inverse(s) && SameUsers(s, s')
    requires forall id :: id in s.users ==> s'.IsActive(id) == (s.IsActive(id) && id !in ids)
    ensures DueUser(s', e) == if e in Emails(s, ids) then None else DueUser(s, e)
  {
    EmailsByIndex(s, ids, e);
    assert e in s.emailTo ==> Lookup(s.emailTo, e) == Some(s.emailTo[e]);
  }

  /** Tenants that fall leave the core with all their users. */
  lemma FallKeeps(s: State, ids: set<string>, s': State)
    requires Invariant(s) && SameUsers(s, s') && CoreMoved(s.core, map[], Emails(s, ids), s'.core)
    requires T.Consistent(s'.reg) && s'.reg.byID.Keys == s.reg.byID.Keys
    requires forall id :: id in s.users ==> s'.IsActive(id) == (s.IsActive(id) && id !in ids)
    ensures Invariant(s')
  {
    SameUsersKeeps(s, s');
    forall e {
      DueAfterFall(s, ids, s', e);
    }
    MoveKeepsExact(s, map[], Emails(s, ids), s');
  }

  lemma DueAfterRise(s: State, id: string, s': State, e: string)
    requires Inverse(s) && SameUsers(s, s')
    requires forall t :: t in s.users ==> s'.IsActive(t) == (s.IsActive(t) || t == id)
    ensures DueUser(s', e) == if e in s.Users(id) then Some(s.Users(id)[e]) else DueUser(s, e)
  {
    assert Lookup(s.emailTo, e) == Some(id) <==> id in s.users && e in s.users[id];
    assert e in s.emailTo ==> Lookup(s.emailTo, e) == Some(s.emailTo[e]);
  }

  /** A tenant that rises brings all its users back. */
  lemma RiseKeeps(s: State, id: string, s': State)
    requires Invariant(s) && SameUsers(s, s') && CoreMoved(s.core, s.Users(id), {}, s'.core)
    requires T.Consistent(s'.reg) && s'.reg.byID.Keys == s.reg.byID.Keys
    requires forall t :: t in s.users ==> s'.IsActive(t) == (s.IsActive(t) || t == id)
    ensures Invariant(s')
  {
    SameUsersKeeps(s, s');
    forall e {
      DueAfterRise(s, id, s', e);
    }
    MoveKeepsExact(s, s.Users(id), {}, s');
  }

  // ---- DeleteTenant -------------------------------------------------------

  ghost predicate DeleteDone(s: State, id: string, s': State) {
    var gone := s.Users(id);
    && s'.reg == T.Next(s.reg, T.Delete(id)) && s'.forceInbounds == s.forceInbounds
    && s'.users == s.users - {id}
    && (forall e :: Lookup(s'.emailTo, e) == if e in gone then None else Lookup(s.emailTo, e))
    && (forall e :: Lookup(s'.lastSeen, e) == if e in gone then None else Lookup(s.lastSeen, e))
    && Reindexed(s.creds, gone, map[], s'.creds)
    && CoreMoved(s.core, map[], gone.Keys, s'.core)
  }

  lemma NamedAfterDelete(s: State, id: string, s': State)
    requires Named(s) && s'.users == s.users - {id} && s'.reg.byID == s.reg.byID - {id}
    ensures Named(s')
  {
  }

  lemma InverseAfterDelete(s: State, id: string, s': State)
    requires Inverse(s) && s'.users == s.users - {id}
    requires forall e :: Lookup(s'.emailTo, e) == if e in s.Users(id) then None else Lookup(s.emailTo, e)
    ensures Inverse(s')
  {
    forall e, t ensures Lookup(s'.emailTo, e) == Some(t) <==> t in s'.users && e in s'.users[t] {
      assert Lookup(s.emailTo, e) == Some(t) <==> t in s.users && e in s.users[t];
      assert Lookup(s.emailTo, e) == Some(id) <==> id in s.users && e in s.users[id];
    }
  }

  lemma DueAfterDelete(s: State, id: string, s': State, e: string)
    requires Inverse(s) && s'.users == s.users - {id} && s'.reg.byID == s.reg.byID - {id}
    requires Lookup(s'.emailTo, e) == if e in s.Users(id) then None else Lookup(s.emailTo, e)
    ensures DueUser(s', e) == if e in s.Users(id) then None else DueUser(s, e)
  {
  }

  lemma DeleteKeeps(s: State, id: string, s': State)
    requires Invariant(s) && id in s.reg.byID && DeleteDone(s, id, s')
    ensures Invariant(s')
  {
    T.StepKeepsConsistent(s.reg, T.Delete(id));
    NamedAfterDelete(s, id, s');
    InverseAfterDelete(s, id, s');
    DeleteKeepsCreds(s, id, s');
    DeleteKeepsExact(s, id, s');
  }

  lemma DeleteKeepsCreds(s: State, id: string, s': State)
    requires Named(s) && CredsSound(s) && id in s.reg.byID
    requires s'.users == s.users - {id} && Reindexed(s.creds, s.Users(id), map[], s'.creds)
    ensures CredsSound(s')
  {
    ChangeKeepsCreds(s, id, s.Users(id), map[], map[], s');
  }

  lemma DeleteKeepsExact(s: State, id: string, s': State)
    requires Inverse(s) && Exact(s) && id in s.reg.byID && DeleteDone(s, id, s')
    ensures Exact(s')
  {
    forall e {
      DueAfterDelete(s, id, s', e);
    }
    MoveKeepsExact(s, map[], s.Users(id).Keys, s');
  }
}
