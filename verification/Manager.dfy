/** The manager object (shared/manager.go): every method against the step it stands for. */
module Managers {
  import opened Base
  import opened Common
  import opened XrayAccounts
  import opened XrayInbounds
  import opened SharedState
  import opened SharedOps
  import opened SharedRuns
  import opened SharedLoops
  import opened TenantStats
  import opened Usage
  import T = Tenants
  import R = TenantRegistry

  datatype Error = NotFound | DuplicateCredential | CredentialTaken | Refused

  /** Users are filed under their own emails. */
  ghost predicate UnderOwnEmail(users: map<string, map<string, User>>) {
    forall id, e :: id in users && e in users[id] ==> users[id][e].email == e
  }

  /** Some credential of the user is another tenant's. */
  ghost predicate ForeignCredential(s: State, creds: map<Credential, string>, id: string, u: User) {
    !Free(creds, id, map[BuildUser(s, id, u).email := BuildUser(s, id, u)])
  }

  /** What stopped a merge: the next user's credential, or the live core at the last one. */
  ghost predicate Explained(s: State, creds: map<Credential, string>, id: string, us: seq<User>, accepts: User -> bool,
                            err: Option<Error>, merged: nat)
  {
    && (err == Some(CredentialTaken) ==> merged < |us| && ForeignCredential(s, creds, id, us[merged]))
    && (err == Some(Refused) ==> 0 < merged <= |us| && !accepts(BuildUser(s, id, us[merged - 1])))
    && (err == Some(NotFound) ==> id !in s.reg.byID)
    && err != Some(DuplicateCredential)
  }

  class Manager {
    const reg: R.Registry
    var users: map<string, map<string, User>>
    var emailTo: map<string, string>
    var creds: map<Credential, string>
    var lastSeen: map<string, nat>
    var forceInbounds: seq<string>
    var core: Option<Core>

    ghost function View(): State
      reads this, reg, reg.store
    {
      State(reg.View(), users, emailTo, creds, lastSeen, forceInbounds, core)
    }

    ghost predicate Valid()
      reads this, reg, reg.store
    {
      reg.Valid() && UnderOwnEmail(users) && SoundCore(core)
    }

    constructor (reg: R.Registry)
      requires reg.Valid()
      ensures this.reg == reg && Valid() && View() == State(reg.View(), map[], map[], map[], map[], [], None)
    {
      this.reg := reg;
      users, emailTo, creds, lastSeen, forceInbounds, core := map[], map[], map[], map[], [], None;
    }

    function UsersOf(id: string): map<string, User>
      reads this
    {
      if id in users then users[id] else map[]
    }

    // ---- the live core ------------------------------------------------------

    /** SyncUser: the client maps follow the user whether or not the live core then accepts it. */
    method SyncUser(u: User, accepts: User -> bool) returns (ok: bool)
      requires core.Some?
      modifies this`core
      ensures core == Some(SyncCore(old(core).value, u)) && ok == accepts(u)
    {
      core := Some(SyncCore(core.value, u));
      ok := accepts(u);
    }

    method RemoveFromCore(u: User)
      requires SoundCore(core)
      modifies this`core
      ensures SoundCore(core)
      ensures forall c, out :: CoreMoved(c, map[], out, old(core)) ==> CoreMoved(c, map[], out + {u.email}, core)
    {
      if core.Some? {
        forall c, out | CoreMoved(c, map[], out, core)
          ensures CoreMoved(c, map[], out + {u.email}, Some(EvictCore(core.value, u)))
        {
          EvictMoves(c, map[], out, core.value, u);
        }
        NothingMoves(core);
        MoveKeepsSound(core, map[], {} + {u.email}, Some(EvictCore(core.value, u)));
        core := Some(EvictCore(core.value, u));
      }
    }

    method RemoveTenantFromCore(id: string)
      requires UnderOwnEmail(users) && SoundCore(core)
      modifies this`core
      ensures SoundCore(core) && CoreMoved(old(core), map[], UsersOf(id).Keys, core)
    {
      var emails := Enumerate(UsersOf(id).Keys);
      NothingMoves(core);
      for i := 0 to |emails|
        invariant SoundCore(core) && CoreMoved(old(core), map[], Elements(emails[..i]), core)
      {
        Visited(emails, i);
        RemoveFromCore(UsersOf(id)[emails[i]]);
      }
      assert emails[..|emails|] == emails;
    }

    /** The tenant's users go in one after another until the live core refuses one. */
    method AddTenantToCore(id: string, accepts: User -> bool) returns (ok: bool, ghost seen: set<string>)
      requires UnderOwnEmail(users) && SoundCore(core)
      modifies this`core
      ensures SoundCore(core) && seen <= UsersOf(id).Keys && CoreMoved(old(core), Only(UsersOf(id), seen), {}, core)
      ensures ok ==> CoreMoved(old(core), UsersOf(id), {}, core)
      ensures !ok ==> exists e :: e in seen && !accepts(UsersOf(id)[e])
    {
      OnlyAll(UsersOf(id));
      if core.None? {
        return true, {};
      }
      var emails := Enumerate(UsersOf(id).Keys);
      NothingMoves(core);
      seen := {};
      for i := 0 to |emails|
        invariant core.Some? && SoundCore(core) && seen == Elements(emails[..i])
        invariant CoreMoved(old(core), Only(UsersOf(id), seen), {}, core)
      {
        Visited(emails, i);
        var e := emails[i];
        OnlyGrows(UsersOf(id), seen, e);
        SyncMoves(old(core), Only(UsersOf(id), seen), {}, core.value, UsersOf(id)[e]);
        seen := seen + {e};
        var taken := SyncUser(UsersOf(id)[e], accepts);
        MoveKeepsSound(old(core), Only(UsersOf(id), seen), {}, core);
        if !taken {
          return false, seen;
        }
      }
      assert emails[..|emails|] == emails;
      ok := true;
    }

    // ---- status -------------------------------------------------------------

    method SuspendTenant(id: string, reason: T.Reason) returns (err: Option<Error>)
      requires Valid()
      modifies this`core, reg, reg.store
      ensures Valid() && SuspendStep(old(View()), id, reason, View())
      ensures err == if id in old(reg.byID) then None else Some(NotFound)
    {
      var r := reg.Suspend(id, reason);
      if r.Err? {
        return Some(NotFound);
      }
      RemoveTenantFromCore(id);
      err := None;
    }

    method ResumeTenant(id: string, accepts: User -> bool) returns (err: Option<Error>, ghost seen: set<string>)
      requires Valid()
      modifies this`core, reg, reg.store
      ensures Valid() && (err == Some(NotFound) <==> id !in old(reg.byID))
      ensures err != Some(Refused) ==> ResumeStep(old(View()), id, View())
      ensures err == Some(Refused) ==>
                && StatusDone(old(View()), T.Resume(id), Only(old(View()).Users(id), seen), {}, View())
                && exists e :: e in seen && e in UsersOf(id) && !accepts(UsersOf(id)[e])
    {
      seen := {};
      var r := reg.Resume(id);
      if r.Err? {
        return Some(NotFound), {};
      }
      var ok: bool;
      ok, seen := AddTenantToCore(id, accepts);
      err := if ok then None else Some(Refused);
    }

    /** The admin server's reset: a new period, then a resumption. */
    method ResetTenant(id: string, accepts: User -> bool) returns (err: Option<Error>, ghost seen: set<string>)
      requires Valid()
      modifies this`core, reg, reg.store
      ensures Valid() && (err == Some(NotFound) <==> id !in old(reg.byID))
      ensures err != Some(Refused) ==> ResetStep(old(View()), id, View())
      ensures err == Some(Refused) ==>
                var renewed := old(View()).(reg := T.Next(old(View()).reg, T.ResetPeriod(id)));
                StatusDone(renewed, T.Resume(id), Only(renewed.Users(id), seen), {}, View())
    {
      var r := reg.ResetPeriod(id);
      if r.Err? {
        return Some(NotFound), {};
      }
      assert View() == old(View()).(reg := T.Next(old(View()).reg, T.ResetPeriod(id)));
      err, seen := ResumeTenant(id, accepts);
    }

    method DeleteTenant(id: string) returns (err: Option<Error>)
      requires Valid()
      modifies this, reg, reg.store
      ensures Valid() && DeleteStep(old(View()), id, View())
      ensures err == if id in old(reg.byID) then None else Some(NotFound)
    {
      RemoveTenantFromCore(id);
      var missing := reg.Delete(id);
      if missing.Some? {
        return Some(NotFound);
      }
      ghost var mid := View();
      ForgetUsers(UsersOf(id));
      users := users - {id};
      DeletedInTwo(old(View()), id, mid, View());
      err := None;
    }

    method Forget(e: string, u: User)
      modifies this`emailTo, this`lastSeen, this`creds
      ensures emailTo == old(emailTo) - {e} && lastSeen == old(lastSeen) - {e} && creds == old(creds) - Credentials(u)
    {
      emailTo := emailTo - {e};
      lastSeen := lastSeen - {e};
      creds := creds - Credentials(u);
    }

    /** Drops the given users from the indexes. */
    method ForgetUsers(gone: map<string, User>)
      modifies this`emailTo, this`lastSeen, this`creds
      ensures Forgot(old(View()), gone, View())
    {
      var order := Enumerate(gone.Keys);
      OnlyAll(gone);
      NobodyForgotten(View());
      for i := 0 to |order|
        invariant Forgot(old(View()), Only(gone, Elements(order[..i])), View())
      {
        Visited(order, i);
        ghost var mid := View();
        Forget(order[i], gone[order[i]]);
        ForgotOneMore(old(View()), gone, Elements(order[..i]), mid, order[i], View());
      }
      assert order[..|order|] == order;
    }

    // ---- user sets ----------------------------------------------------------

    function Build(id: string, u: User): User
      reads this
    {
      User(NamespacedEmail(id, u.email), u.proxies, if |forceInbounds| > 0 then forceInbounds else u.inbounds)
    }

    /** One user against the batch and the index. */
    method CheckUser(id: string, email: string, u: User, batch: map<Credential, string>) returns (err: Option<Error>)
      ensures err == None <==>
              forall c :: c in Credentials(u) ==>
                (c in batch ==> batch[c] == email) && (c in creds ==> Prefix(id) <= creds[c])
      ensures err == Some(DuplicateCredential) ==> exists c :: c in Credentials(u) && c in batch && batch[c] != email
      ensures err == Some(CredentialTaken) ==>
              exists c :: c in Credentials(u) && c in creds && !(Prefix(id) <= creds[c])
      ensures err == None || err == Some(DuplicateCredential) || err == Some(CredentialTaken)
    {
      var order := Enumerate(Credentials(u));
      for i := 0 to |order|
        invariant forall c :: c in Elements(order[..i]) ==>
                    (c in batch ==> batch[c] == email) && (c in creds ==> Prefix(id) <= creds[c])
      {
        Visited(order, i);
        var c := order[i];
        if c in batch && batch[c] != email {
          return Some(DuplicateCredential);
        }
        if c in creds && !(Prefix(id) <= creds[c]) {
          return Some(CredentialTaken);
        }
      }
      assert order[..|order|] == order;
      err := None;
    }

    /** No credential twice in the set, and none of another tenant's. */
    method CheckSet(id: string, set': map<string, User>) returns (err: Option<Error>)
      requires WellNamed(id, set')
      ensures err == None <==> Unshared(set') && Free(creds, id, set')
      ensures err == Some(DuplicateCredential) ==> !Unshared(set')
      ensures err == Some(CredentialTaken) ==> !Free(creds, id, set')
      ensures err == None || err == Some(DuplicateCredential) || err == Some(CredentialTaken)
    {
      OnlyAll(set');
      var batch: map<Credential, string> := map[];
      var order := Enumerate(set'.Keys);
      for i := 0 to |order|
        invariant Reindexed(map[], map[], Only(set', Elements(order[..i])), batch)
        invariant Free(creds, id, Only(set', Elements(order[..i])))
      {
        Visited(order, i);
        var e := order[i];
        err := CheckUser(id, e, set'[e], batch);
        if err.Some? {
          if err == Some(DuplicateCredential) {
            ghost var c :| c in Credentials(set'[e]) && c in batch && batch[c] != e;
            ClashMeansShared(set', Elements(order[..i]), batch, e, c);
          } else {
            ghost var c :| c in Credentials(set'[e]) && c in creds && !(Prefix(id) <= creds[c]);
            TakenMeansUnfree(set', creds, id, e, c);
          }
          return;
        }
        CheckedOneMore(set', Elements(order[..i]), batch, creds, id, e);
        batch := batch + Entries(set'[e]);
      }
      assert order[..|order|] == order;
      IndexedMeansUnshared(set', batch);
      err := None;
    }

    method BuildSet(id: string, users: seq<User>) returns (set': map<string, User>)
      ensures set' == NewSet(View(), id, users) && Merges(forceInbounds, id, users, map[], set')
    {
      NewSetExactly(View(), id, users);
      set' := map[];
      for i := 0 to |users|
        invariant set' == NewSet(View(), id, users[..i])
      {
        assert users[..i + 1][..i] == users[..i];
        set' := set'[NamespacedEmail(id, users[i].email) := Build(id, users[i])];
      }
      assert users[..|users|] == users;
    }

    /** Users no longer present leave the core and the indexes. */
    method DropUsers(gone: map<string, User>)
      requires SoundCore(core) && forall e :: e in gone ==> gone[e].email == e
      modifies this`emailTo, this`lastSeen, this`creds, this`core
      ensures Forgot(old(View()), gone, View())
      ensures SoundCore(core) && CoreMoved(old(core), map[], gone.Keys, core)
    {
      var order := Enumerate(gone.Keys);
      OnlyAll(gone);
      NobodyForgotten(View());
      NothingMoves(core);
      for i := 0 to |order|
        invariant Forgot(old(View()), Only(gone, Elements(order[..i])), View())
        invariant SoundCore(core) && CoreMoved(old(core), map[], Elements(order[..i]), core)
      {
        Visited(order, i);
        RemoveFromCore(gone[order[i]]);
        ghost var mid := View();
        Forget(order[i], gone[order[i]]);
        ForgotOneMore(old(View()), gone, Elements(order[..i]), mid, order[i], View());
      }
      assert order[..|order|] == order;
    }

    /** One turn of the add-or-refresh loops. */
    method Enter(id: string, e: string, u: User, active: bool, accepts: User -> bool) returns (ok: bool)
      modifies this`emailTo, this`creds, this`core
      ensures emailTo == old(emailTo)[e := id] && creds == old(creds) + Entries(u) &&
              core == Follow(old(core), active, u)
      ensures !ok ==> !accepts(u)
    {
      emailTo := emailTo[e := id];
      creds := creds + Entries(u);
      ok := true;
      if active && core.Some? {
        ok := SyncUser(u, accepts);
      }
    }

    /** The add-or-refresh loop, until the live core refuses a user. */
    method EnterUsers(ghost s: State, id: string, set': map<string, User>, active: bool, accepts: User -> bool)
      returns (ok: bool, ghost seen: set<string>)
      requires SetPartly(s, id, set', {}, View()) && WellNamed(id, set') && Unshared(set') && active == s.IsActive(id)
      modifies this`emailTo, this`creds, this`core
      ensures SetPartly(s, id, set', seen, View())
      ensures if ok then seen == set'.Keys else exists e :: e in seen && !accepts(set'[e])
    {
      seen := {};
      var order := Enumerate(set'.Keys);
      for i := 0 to |order|
        invariant seen == Elements(order[..i]) && SetPartly(s, id, set', seen, View())
      {
        Visited(order, i);
        var e := order[i];
        ghost var mid := View();
        var taken := Enter(id, e, set'[e], active, accepts);
        PartlyGrows(s, id, set', seen, mid, e, View());
        seen := seen + {e};
        if !taken {
          return false, seen;
        }
      }
      assert order[..|order|] == order;
      ok := true;
    }

    method SetTenantUsers(id: string, us: seq<User>, accepts: User -> bool) returns (err: Option<Error>,
                          ghost seen: set<string>)
      requires Valid()
      modifies this
      ensures Valid() && (err == Some(NotFound) <==> id !in reg.byID)
      ensures err == Some(DuplicateCredential) ==> !Unshared(NewSet(old(View()), id, us))
      ensures err == Some(CredentialTaken) ==> !Free(old(creds), id, NewSet(old(View()), id, us))
      ensures err != Some(Refused) ==> SetStep(old(View()), id, us, View())
      ensures err == None ==> Acceptable(old(View()), id, NewSet(old(View()), id, us))
      ensures err == None ==> id in users && Merges(old(forceInbounds), id, us, map[], users[id])
      ensures err == Some(Refused) ==>
                && Acceptable(old(View()), id, NewSet(old(View()), id, us))
                && SetPartly(old(View()), id, NewSet(old(View()), id, us), seen, View())
                && exists e :: e in seen && !accepts(NewSet(old(View()), id, us)[e])
    {
      seen := {};
      if id !in reg.byID {
        return Some(NotFound), {};
      }
      var active := reg.byID[id].status == T.Active;
      var set' := BuildSet(id, us);
      NewSetIsNamed(View(), id, us);
      err := CheckSet(id, set');
      if err.Some? {
        return;
      }
      DropUsers(UsersOf(id) - set'.Keys);
      PartlyStarts(old(View()), id, set', View());
      var ok: bool;
      ok, seen := EnterUsers(old(View()), id, set', active, accepts);
      MoveKeepsSound(old(core), if active then Only(set', seen) else map[], Dropped(old(View()), id, set').Keys, core);
      if !ok {
        return Some(Refused), seen;
      }
      PartlyEnds(old(View()), id, set', View());
      users := users[id := set'];
    }

    /** Stores, indexes and syncs one user. */
    method Merge(id: string, nu: User, active: bool, accepts: User -> bool) returns (ok: bool)
      requires Valid() && id in users && active == View().IsActive(id)
      modifies this`users, this`emailTo, this`creds, this`core
      ensures Valid() && id in users && AddDone(old(View()), id, nu, View()) && (!ok ==> !accepts(nu))
    {
      users := users[id := users[id][nu.email := nu]];
      ok := Enter(id, nu.email, nu, active, accepts);
      MergedOne(old(View()), id, nu, View());
      MoveKeepsSound(old(core), if active then map[nu.email := nu] else map[], {}, core);
    }

    /** One turn of the merge loop: refused over a credential, or merged. */
    method MergeUser(ghost s: State, id: string, us: seq<User>, i: nat, active: bool, accepts: User -> bool)
      returns (err: Option<Error>, merged: nat)
      requires Valid() && id in users && active == View().IsActive(id) && i < |us| && AddedAll(s, id, us[..i], View())
      requires id in s.reg.byID && forceInbounds == s.forceInbounds
      modifies this`users, this`emailTo, this`creds, this`core
      ensures merged == (if err == Some(CredentialTaken) then i else i + 1) &&
              Explained(s, creds, id, us, accepts, err, merged)
      ensures Valid() && id in users && AddedAll(s, id, us[..merged], View())
    {
      var nu := Build(id, us[i]);
      FreeUser(creds, id, nu);
      err := CheckUser(id, nu.email, nu, map[]);
      if err.Some? {
        return err, i;
      }
      var ok := Merge(id, nu, active, accepts);
      AddedNext(s, id, us, i, old(View()), View());
      err, merged := if ok then None else Some(Refused), i + 1;
    }

    /** The merge loop: `merged` users are in, and what stopped the rest is the error. */
    method MergeUsers(ghost s: State, id: string, us: seq<User>, active: bool, accepts: User -> bool)
      returns (err: Option<Error>, merged: nat)
      requires Valid() && id in users && active == View().IsActive(id) && AddedAll(s, id, us[..0], View())
      requires id in s.reg.byID && forceInbounds == s.forceInbounds
      modifies this`users, this`emailTo, this`creds, this`core
      ensures Valid() && merged <= |us| && AddedAll(s, id, us[..merged], View())
      ensures (err == None ==> merged == |us|) && Explained(s, creds, id, us, accepts, err, merged)
    {
      err, merged := None, 0;
      while err == None && merged < |us|
        invariant Valid() && merged <= |us| && id in users
        invariant AddedAll(s, id, us[..merged], View()) && Explained(s, creds, id, us, accepts, err, merged)
        decreases |us| - merged, err == None
      {
        err, merged := MergeUser(s, id, us, merged, active, accepts);
      }
    }

    /** Merges users in order, keeping those before a refusal. */
    method AddTenantUsers(id: string, us: seq<User>, accepts: User -> bool) returns (err: Option<Error>, merged: nat)
      requires Valid()
      modifies this`users, this`emailTo, this`creds, this`core
      ensures Valid() && merged <= |us| && (err == Some(NotFound) <==> id !in reg.byID)
      ensures if id in reg.byID then AddedAll(old(View()), id, us[..merged], View()) else View() == old(View())
      ensures id in reg.byID ==>
                id in users && Merges(forceInbounds, id, us[..merged], old(UsersOf(id)), users[id])
      ensures (err == None ==> merged == |us|) && Explained(old(View()), creds, id, us, accepts, err, merged)
    {
      merged := 0;
      if id !in reg.byID {
        return Some(NotFound), 0;
      }
      var active := reg.byID[id].status == T.Active;
      AddedNone(View(), id, us);
      users := users[id := UsersOf(id)];
      err, merged := MergeUsers(old(View()), id, us, active, accepts);
      AddedExactly(old(View()), id, us[..merged], View());
    }

    // ---- the core's life ----------------------------------------------------

    method SetForceInbounds(tags: seq<string>)
      modifies this`forceInbounds
      ensures View() == old(View()).(forceInbounds := tags)
    {
      forceInbounds := tags;
    }

    method Stop()
      modifies this`core
      ensures View() == old(View()).(core := None)
    {
      core := None;
    }

    /** StartCore, given what starting the core would yield. */
    method StartCore(started: Option<Core>) returns (ok: bool)
      requires Valid() && (started.Some? ==> FreshCore(started.value))
      modifies this`core
      ensures Valid() && StartStep(old(View()), started, View()) && ok == (old(core).None? && started.Some?)
    {
      if core.Some? {
        return false;
      }
      core := started;
      ok := started.Some?;
    }

    /** A tenant's turn in the re-apply loop. */
    method Reapply(id: string, accepts: User -> bool) returns (ok: bool, ghost seen: set<string>)
      requires Valid()
      modifies this`core
      ensures Valid() && (!View().IsActive(id) ==> ok && core == old(core))
      ensures View().IsActive(id) && ok ==> CoreMoved(old(core), UsersOf(id), {}, core)
      ensures !ok ==> CoreMoved(old(core), Only(UsersOf(id), seen), {}, core)
      ensures !ok ==> exists e :: e in seen && e in UsersOf(id) && !accepts(UsersOf(id)[e])
    {
      ok, seen := true, {};
      if id in reg.byID && reg.byID[id].status == T.Active {
        ok, seen := AddTenantToCore(id, accepts);
      }
    }

    /** Stop, start, and re-apply the users of every active tenant. */
    method ApplyConfig(started: Option<Core>, accepts: User -> bool) returns (ok: bool)
      requires Valid() && (started.Some? ==> FreshCore(started.value))
      modifies this`core
      ensures Valid() && (started.None? ==> !ok && core == None)
      ensures ok ==> ConfigDone(old(View()), started, View())
      ensures !ok && started.Some? ==> PartlyApplied(old(View()), started, core)
    {
      core := None;
      if started.None? {
        return false;
      }
      core := started;
      ReappliedNone(old(View()), started);
      assert ActiveAmong(old(View()), {}) == {};
      var order := Enumerate(users.Keys);
      for i := 0 to |order|
        invariant Valid() && Reapplied(old(View()), ActiveAmong(old(View()), Elements(order[..i])), started, core)
      {
        Visited(order, i);
        ghost var mid := core;
        ghost var seen;
        ok, seen := Reapply(order[i], accepts);
        if !ok {
          RefusedAt(old(View()), ActiveAmong(old(View()), Elements(order[..i])), started, mid, order[i], seen, core);
          return;
        }
        ActiveGrows(old(View()), Elements(order[..i]), order[i]);
        if old(View()).IsActive(order[i]) {
          ReappliedNext(old(View()), ActiveAmong(old(View()), Elements(order[..i])), started, mid, order[i], core);
        }
      }
      assert order[..|order|] == order;
      ReappliedAll(old(View()), started, View());
      ok := true;
    }

    // ---- the poll -----------------------------------------------------------

    /** Uplink and downlink rows of a name together. */
    static method SumRows(rows: seq<Row>) returns (current: map<string, nat>)
      ensures current == Totals(rows) && AddsUp(rows, current)
    {
      TotalsExactly(rows);
      current := map[];
      for i := 0 to |rows|
        invariant current == Totals(rows[..i])
      {
        assert rows[..i + 1][..i] == rows[..i];
        var before := if rows[i].name in current then current[rows[i].name] else 0;
        current := current[rows[i].name := before + rows[i].value];
      }
      assert rows[..|rows|] == rows;
    }

    /** One polled email. */
    method ReadDelta(current: map<string, nat>, e: string, deltas: map<string, int>) returns (deltas': map<string, int>)
      requires e in current
      modifies this`lastSeen
      ensures lastSeen == old(lastSeen)[e := current[e]] && deltas' == AddDelta(old(View()), current, deltas, e)
    {
      var last := if e in lastSeen then lastSeen[e] else 0;
      var delta := if current[e] >= last then current[e] - last else current[e];
      lastSeen := lastSeen[e := current[e]];
      deltas' := deltas;
      if e in emailTo {
        var before := if emailTo[e] in deltas then deltas[emailTo[e]] else 0;
        deltas' := deltas[emailTo[e] := before + delta];
      }
    }

    /** The deltas of the polled emails, added up by tenant; the readings are remembered. */
    method ReadDeltas(current: map<string, nat>) returns (deltas: map<string, int>)
      modifies this`lastSeen
      ensures DeltasSoFar(old(View()), current, current.Keys, deltas)
      ensures Remembered(old(lastSeen), current, current.Keys, lastSeen)
    {
      deltas := map[];
      NothingRead(View(), current);
      var order := Enumerate(current.Keys);
      for i := 0 to |order|
        invariant DeltasSoFar(old(View()), current, Elements(order[..i]), deltas)
        invariant Remembered(old(lastSeen), current, Elements(order[..i]), lastSeen)
      {
        Visited(order, i);
        RememberedNext(old(lastSeen), current, Elements(order[..i]), lastSeen, order[i]);
        AddDeltaLater(old(View()), View(), current, deltas, order[i]);
        DeltasGrow(old(View()), current, Elements(order[..i]), deltas, order[i]);
        deltas := ReadDelta(current, order[i], deltas);
      }
      assert order[..|order|] == order;
    }

    /** Adds the deltas to the tenants' usage, up to a tenant that is gone. */
    method ChargeAll(deltas: map<string, int>) returns (ok: bool, ghost done: set<string>)
      requires Valid() && forall id :: id in deltas ==> deltas[id] >= 0
      modifies reg, reg.store
      ensures Valid() && done <= deltas.Keys && ChargedSoFar(old(reg.View()), deltas, done, reg.View())
      ensures if ok then done == deltas.Keys else exists id :: id in deltas && id !in old(reg.byID)
    {
      done := {};
      var order := Enumerate(deltas.Keys);
      for i := 0 to |order|
        invariant Valid() && done == Elements(order[..i]) && ChargedSoFar(old(reg.View()), deltas, done, reg.View())
      {
        Visited(order, i);
        var id := order[i];
        if id in reg.byID {
          ChargesGrow(old(reg.View()), deltas, done, reg.View(), id);
        }
        var r := reg.AddUsage(id, deltas[id]);
        if r.Err? {
          return false, done;
        }
        done := done + {id};
      }
      assert order[..|order|] == order;
      ok := true;
    }

    /** The accounting half of a poll; a tenant that is gone stops it. */
    method Account(rows: seq<Row>) returns (ok: bool, ghost done: set<string>)
      requires Valid()
      modifies this`lastSeen, reg, reg.store
      ensures Valid() && AccountedPartly(old(View()), rows, done, View())
      ensures ok ==> Accounted(old(View()), Some(rows), View())
      ensures !ok ==> exists e :: e in emailTo && emailTo[e] !in old(reg.byID)
    {
      var current := SumRows(rows);
      var deltas := ReadDeltas(current);
      DeltasAreNatural(old(View()), current, deltas);
      ok, done := ChargeAll(deltas);
      AccountedBy(old(View()), rows, deltas, done, View());
      if ok {
        AccountedWholly(old(View()), rows, deltas, View());
      } else {
        GoneTenantHasUser(old(View()), current, deltas, old(reg.byID));
      }
    }

    method EnforceQuotas(now: int)
      requires Valid()
      modifies this`core, reg, reg.store
      ensures Valid() && EnforceDone(old(View()), now, View())
    {
      var changes := reg.Enforce(now);
      IdsAreFallen(old(reg.byID), now, changes);
      NothingMoves(core);
      assert Emails(old(View()), Ids(changes[..0])) == {};
      for i := 0 to |changes|
        invariant Valid() && CoreMoved(old(core), map[], Emails(old(View()), Ids(changes[..i])), core)
        invariant reg.View() == T.Next(old(reg.View()), T.Enforce(now))
      {
        ghost var mid := core;
        RemoveTenantFromCore(changes[i].id);
        EvictedNext(old(View()), changes, i, old(core), mid, core);
      }
      assert changes[..|changes|] == changes;
    }

    /** A poll, given the rows the core reports; it fails only if a user's tenant is gone. */
    method CollectAndEnforce(rows: Option<seq<Row>>, now: int) returns (ok: bool, ghost done: set<string>)
      requires Valid()
      modifies this`lastSeen, this`core, reg, reg.store
      ensures Valid() && (ok ==> CollectStep(old(View()), rows, now, View()))
      ensures !ok ==> rows.Some? && AccountedPartly(old(View()), rows.value, done, View())
      ensures !ok ==> exists e :: e in emailTo && emailTo[e] !in old(reg.byID)
    {
      done := {};
      if core.None? {
        return true, {};
      }
      if rows.Some? {
        ok, done := Account(rows.value);
        if !ok {
          return;
        }
      }
      assert Accounted(old(View()), rows, View());
      EnforceQuotas(now);
      ok := true;
    }

    /** What a tenant's panel is shown, given the rows the core reports. */
    method GetTenantUserStats(id: string, rows: Option<seq<Row>>) returns (out: seq<Row>)
      ensures out == if core.None? || rows.None? then [] else TenantRows(rows.value, id)
    {
      out := [];
      if core.None? || rows.None? {
        return;
      }
      var prefix := Prefix(id);
      for i := 0 to |rows.value|
        invariant out == TenantRows(rows.value[..i], id)
      {
        assert rows.value[..i + 1][..i] == rows.value[..i];
        var row := rows.value[i];
        if prefix <= row.name {
          out := out + [row.(name := row.name[|prefix|..])];
        }
      }
      assert rows.value[..|rows.value|] == rows.value;
    }
  }
}
