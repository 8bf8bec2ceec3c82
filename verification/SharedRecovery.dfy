/** What suspension undoes, and how a failed call is made good by repeating it (shared/manager.go). */
module SharedRecovery {
  import opened Base
  import opened Common
  import opened XrayAccounts
  import opened XrayInbounds
  import opened SharedState
  import opened SharedOps
  import opened SharedRuns
  import T = Tenants

  // ---- suspend and resume -------------------------------------------------

  /** An exact core is determined by whom each inbound would serve and by the users due. */
  lemma ExactIsUnique(s: State, s': State)
    requires s.core.Some? && s'.core.Some? && |s.core.value| == |s'.core.value| && Exact(s) && Exact(s')
    requires forall i :: 0 <= i < |s.core.value| ==> s'.core.value[i].serve == s.core.value[i].serve
    requires forall e :: DueUser(s', e) == DueUser(s, e)
    ensures s'.core == s.core
  {
    forall i | 0 <= i < |s.core.value| ensures s.core.value[i] == s'.core.value[i] {
      assert ExactAt(s, s.core.value[i]) && ExactAt(s', s'.core.value[i]);
      SameAccounts(s.core.value[i], s'.core.value[i]);
    }
    assert s.core.value == s'.core.value;
  }

  lemma SameAccounts(ib: Inbound, ib': Inbound)
    requires ib.serve == ib'.serve && forall e :: ib.At(e) == ib'.At(e)
    ensures ib == ib'
  {
    forall e ensures e in ib.clients <==> e in ib'.clients {
      assert ib.At(e) == ib'.At(e);
    }
    forall e | e in ib.clients ensures ib.clients[e] == ib'.clients[e] {
      assert ib.At(e) == ib'.At(e);
    }
    assert ib.clients == ib'.clients;
  }

  /** Two moves between exact states with the same users due lead back to the same core. */
  lemma TwoMovesRestore(s: State, put: map<string, User>, out: set<string>, mid: Option<Core>,
                        put': map<string, User>, out': set<string>, s': State)
    requires Inverse(s) && Exact(s) && Exact(s') && SameStanding(s, s')
    requires CoreMoved(s.core, put, out, mid) && CoreMoved(mid, put', out', s'.core)
    ensures s'.core == s.core
  {
    forall e {
      SameStandingSameDue(s, s', e);
    }
    if s.core.Some? {
      forall i | 0 <= i < |s.core.value| ensures s'.core.value[i].serve == s.core.value[i].serve {
        assert Moved(s.core.value[i], put, out, mid.value[i]) && Moved(mid.value[i], put', out', s'.core.value[i]);
      }
      ExactIsUnique(s, s');
    }
  }

  lemma RegistryRestored(r: T.Registry, id: string, reason: T.Reason)
    requires T.Consistent(r) && id in r.byID
    ensures T.Next(T.Next(r, T.Suspend(id, reason)), T.Resume(id)) == T.Next(r, T.Resume(id))
  {
  }

  lemma ResumedStanding(s: State, id: string, s': State)
    requires T.Consistent(s.reg) && s.IsActive(id) && SameUsers(s, s') && s'.reg == T.Next(s.reg, T.Resume(id))
    ensures SameStanding(s, s')
  {
  }

  /** Suspending an active tenant and resuming it gives back the very same core. */
  lemma SuspendThenResume(s: State, id: string, reason: T.Reason, mid: State, s': State)
    requires Invariant(s) && s.IsActive(id)
    requires SuspendStep(s, id, reason, mid) && ResumeStep(mid, id, s')
    ensures s'.core == s.core && SameUsers(s, s') && s'.reg == T.Next(s.reg, T.Resume(id))
  {
    SuspendKeeps(s, id, reason, mid);
    ResumeKeeps(mid, id, s');
    RegistryRestored(s.reg, id, reason);
    ResumedStanding(s, id, s');
    TwoMovesRestore(s, map[], s.Users(id).Keys, mid.core, mid.Users(id), {}, s');
  }

  // ---- calls the core refuses half way ------------------------------------

  /**
   * If the core refuses a user during a replacement, the stored set stays behind the indexes, and they still match
   * exactly if nobody was dropped and nobody new was entered before the refusal.
   */
  lemma HalfwayIndexes(s: State, id: string, set': map<string, User>, seen: set<string>, s': State)
    requires Inverse(s) && SetPartly(s, id, set', seen, s')
    ensures Inverse(s') <==> Dropped(s, id, set') == map[] && seen <= s.Users(id).Keys
  {
    if Dropped(s, id, set') == map[] && seen <= s.Users(id).Keys {
      forall e, t ensures Lookup(s'.emailTo, e) == Some(t) <==> t in s'.users && e in s'.users[t] {
        assert Lookup(s.emailTo, e) == Some(t) <==> t in s.users && e in s.users[t];
        assert e in seen ==> Lookup(s.emailTo, e) == Some(id);
      }
    }
    if Inverse(s') {
      forall e ensures e !in Dropped(s, id, set') && (e in seen ==> e in s.Users(id)) {
        assert Lookup(s'.emailTo, e) == Some(id) <==> id in s'.users && e in s'.users[id];
        assert Lookup(s.emailTo, e) == Some(id) <==> id in s.users && e in s.users[id];
      }
    }
  }

  /** The refreshed users are served everywhere as the stored ones are, or the core has none of them. */
  ghost predicate ServedAlike(s: State, id: string, set': map<string, User>, seen: set<string>) {
    s.IsActive(id) && s.core.Some? ==>
      forall i, e :: 0 <= i < |s.core.value| && e in seen && e in s.Users(id) && e in set' ==>
        s.core.value[i].serve(set'[e]) == s.core.value[i].serve(s.Users(id)[e])
  }

  lemma HalfwayDue(s: State, id: string, set': map<string, User>, seen: set<string>, s': State, e: string)
    requires Inverse(s) && SetPartly(s, id, set', seen, s') && Dropped(s, id, set') == map[] && seen <= s.Users(id).Keys
    ensures DueUser(s', e) == DueUser(s, e)
    ensures e in seen && s.IsActive(id) ==> DueUser(s, e) == Some(s.Users(id)[e])
  {
    assert e in s.Users(id) ==> Lookup(s.emailTo, e) == Some(id);
    assert Lookup(s'.emailTo, e) == Lookup(s.emailTo, e);
  }

  lemma HalfwayExactAt(s: State, id: string, set': map<string, User>, seen: set<string>, s': State, ib: Inbound,
                       ib': Inbound)
    requires Inverse(s) && SetPartly(s, id, set', seen, s') && Dropped(s, id, set') == map[] && seen <= s.Users(id).Keys
    requires ExactAt(s, ib) && Moved(ib, if s.IsActive(id) then Only(set', seen) else map[], {}, ib')
    ensures ExactAt(s', ib') <==>
            (s.IsActive(id) ==> forall e :: e in seen ==> ib.serve(set'[e]) == ib.serve(s.Users(id)[e]))
  {
    forall e
      ensures DueUser(s', e) == DueUser(s, e) && (e in seen && s.IsActive(id) ==> DueUser(s, e) == Some(s.Users(id)[e]))
    {
      HalfwayDue(s, id, set', seen, s', e);
    }
    if ExactAt(s', ib') && s.IsActive(id) {
      forall e | e in seen ensures ib.serve(set'[e]) == ib.serve(s.Users(id)[e]) {
        assert ib'.At(e) == Due(ib', DueUser(s', e));
      }
    }
  }

  lemma HalfwayExact(s: State, id: string, set': map<string, User>, seen: set<string>, s': State)
    requires Inverse(s) && Exact(s) && SetPartly(s, id, set', seen, s')
    requires Dropped(s, id, set') == map[] && seen <= s.Users(id).Keys
    ensures Exact(s') <==> ServedAlike(s, id, set', seen)
  {
    if s.core.Some? {
      forall i | 0 <= i < |s.core.value|
        ensures ExactAt(s', s'.core.value[i]) <==>
                (s.IsActive(id) ==>
                 forall e :: e in seen ==> s.core.value[i].serve(set'[e]) == s.core.value[i].serve(s.Users(id)[e]))
      {
        assert ExactAt(s, s.core.value[i]);
        HalfwayExactAt(s, id, set', seen, s', s.core.value[i], s'.core.value[i]);
      }
    }
  }

  lemma HalfwayCreds(s: State, id: string, set': map<string, User>, seen: set<string>, s': State)
    requires Named(s) && CredsSound(s) && Acceptable(s, id, set') && WellNamed(id, set') &&
             SetPartly(s, id, set', seen, s')
    requires Dropped(s, id, set') == map[]
    ensures CredsSound(s')
  {
    ChangeKeepsCreds(s, id, map[], Only(set', seen), s.Users(id), s');
  }

  /**
   * A refused replacement keeps the invariant if and only if nobody was dropped, nobody new was entered before the
   * refusal, and every user refreshed before it is served as before.
   */
  lemma HalfwayInvariant(s: State, id: string, set': map<string, User>, seen: set<string>, s': State)
    requires Invariant(s) && Acceptable(s, id, set') && WellNamed(id, set') && SetPartly(s, id, set', seen, s')
    ensures Invariant(s') <==>
            Dropped(s, id, set') == map[] && seen <= s.Users(id).Keys && ServedAlike(s, id, set', seen)
  {
    HalfwayIndexes(s, id, set', seen, s');
    if Dropped(s, id, set') == map[] && seen <= s.Users(id).Keys {
      HalfwayExact(s, id, set', seen, s');
      HalfwayCreds(s, id, set', seen, s');
    }
  }

  lemma ReindexTwice(creds: map<Credential, string>, gone: map<string, User>, set': map<string, User>,
                     seen: set<string>, creds1: map<Credential, string>, creds2: map<Credential, string>)
    requires Reindexed(creds, gone, Only(set', seen), creds1) && Reindexed(creds1, gone, set', creds2)
    ensures Reindexed(creds, gone, set', creds2)
  {
  }

  lemma MoveTwice(core: Option<Core>, put: map<string, User>, put': map<string, User>, out: set<string>,
                  mid: Option<Core>, core': Option<Core>)
    requires CoreMoved(core, put, out, mid) && CoreMoved(mid, put', out, core') && put.Keys <= put'.Keys
    ensures CoreMoved(core, put', out, core')
  {
  }

  /** The refused replacement is still acceptable when it is tried again. */
  lemma StillAcceptable(s: State, id: string, set': map<string, User>, seen: set<string>, mid: State)
    requires Acceptable(s, id, set') && WellNamed(id, set') && SetPartly(s, id, set', seen, mid)
    ensures Acceptable(mid, id, set')
  {
    forall e, c | e in set' && c in Credentials(set'[e]) && c in mid.creds ensures Prefix(id) <= mid.creds[c] {
      var entered := Only(set', seen);
      if Carried(entered, c) {
        var f :| f in entered && c in Credentials(entered[f]);
        assert Lookup(mid.creds, c) == Some(f);
      } else {
        assert Lookup(mid.creds, c) == Some(mid.creds[c]);
        assert Lookup(mid.creds, c) == Lookup(s.creds, c);
      }
    }
  }

  /** Repeating a refused replacement until the core takes it leaves the node as if it had been taken at once. */
  lemma RetryCompletes(s: State, id: string, set': map<string, User>, seen: set<string>, mid: State, s': State)
    requires SetPartly(s, id, set', seen, mid) && SetDone(mid, id, set', s')
    ensures SetDone(s, id, set', s')
  {
    var gone := Dropped(s, id, set');
    ReindexTwice(s.creds, gone, set', seen, mid.creds, s'.creds);
    if s.IsActive(id) {
      MoveTwice(s.core, Only(set', seen), set', gone.Keys, mid.core, s'.core);
    } else {
      MoveTwice(s.core, map[], map[], gone.Keys, mid.core, s'.core);
    }
  }

  /** So from a good state a refusal, and a repeat that succeeds, end in a good state. */
  lemma RetryKeeps(s: State, id: string, set': map<string, User>, seen: set<string>, mid: State, s': State)
    requires Invariant(s) && Acceptable(s, id, set') && WellNamed(id, set')
    requires SetPartly(s, id, set', seen, mid) && SetDone(mid, id, set', s')
    ensures Invariant(s')
  {
    RetryCompletes(s, id, set', seen, mid, s');
    SetKeeps(s, id, set', s');
  }

  /** A resumption refused half way and repeated is a resumption. */
  lemma ResumeRetried(s: State, id: string, seen: set<string>, mid: State, s': State)
    requires T.Consistent(s.reg) && id in s.reg.byID
    requires StatusDone(s, T.Resume(id), Only(s.Users(id), seen), {}, mid)
    requires ResumeStep(mid, id, s')
    ensures ResumeStep(s, id, s')
  {
    MoveTwice(s.core, Only(s.Users(id), seen), s.Users(id), {}, mid.core, s'.core);
  }
}
