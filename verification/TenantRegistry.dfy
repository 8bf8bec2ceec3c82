/** The registry and store objects (tenant/registry.go, tenant/store.go); saves succeed. */
module TenantRegistry {
  import opened Base
  import T = Tenants

  class MemStore {
    var m: map<string, T.Tenant>

    constructor ()
      ensures m == map[]
    {
      m := map[];
    }

    method SaveTenant(t: T.Tenant)
      modifies this
      ensures m == old(m)[t.id := t]
    {
      m := m[t.id := t];
    }

    method DeleteTenant(id: string)
      modifies this
      ensures m == old(m) - {id}
    {
      m := m - {id};
    }

    /** The tenants in any order. */
    method LoadTenants() returns (out: seq<T.Tenant>)
      ensures Elements(out) == m.Values
    {
      var ids := Enumerate(m.Keys);
      assert forall i :: 0 <= i < |ids| ==> ids[i] in Elements(ids);
      var tenants := m;
      out := seq(|ids|, i requires 0 <= i < |ids| => tenants[ids[i]]);
      assert forall i :: 0 <= i < |ids| ==> out[i] == m[ids[i]];
      forall t | t in m.Values ensures t in Elements(out) {
        var id :| id in m && m[id] == t;
        assert id in Elements(ids);
        var i :| 0 <= i < |ids| && ids[i] == id;
        assert out[i] == t;
      }
    }
  }

  datatype Error = NotFound | AlreadyExists | KeyConflict

  class Registry {
    var byID: map<string, T.Tenant>
    var byKey: map<string, string>
    const store: MemStore

    ghost function View(): T.Registry
      reads this, store
    {
      T.Registry(byID, byKey, store.m)
    }

    ghost predicate Valid()
      reads this, store
    {
      T.Consistent(View())
    }

    /** NewRegistry: a store left by a consistent registry rebuilds that registry's indexes. */
    constructor (store: MemStore)
      ensures this.store == store
      ensures forall r :: T.Consistent(r) && r.saved == store.m ==> View() == r
    {
      this.store := store;
      byID, byKey := map[], map[];
      new;
      var loaded := store.LoadTenants();
      for i := 0 to |loaded|
        invariant byID == T.LoadedByID(loaded[..i]) && byKey == T.LoadedByKey(loaded[..i])
      {
        var t := loaded[i];
        assert loaded[..i + 1][..i] == loaded[..i];
        byID := byID[t.id := t];
        if t.status != T.Deleted {
          byKey := byKey[t.apiKeyHash := t.id];
        }
      }
      assert loaded[..|loaded|] == loaded;
      forall r: T.Registry | T.Consistent(r) && r.saved == store.m ensures View() == r {
        T.RestartRecovers(r, loaded);
      }
    }

    method CreateTenant(id: string, hash: string, quota: int, credit: int, expireAt: int, periodID: nat)
      returns (r: Result<T.Tenant, Error>)
      requires Valid()
      modifies this, store
      ensures Valid() && View() == T.Next(old(View()), T.Create(id, hash, quota, credit, expireAt, periodID))
      ensures r == if id in old(byID) then Err(AlreadyExists)
                   else if hash in old(byKey) then Err(KeyConflict)
                   else Ok(byID[id])
    {
      T.StepKeepsConsistent(View(), T.Create(id, hash, quota, credit, expireAt, periodID));
      if id in byID {
        return Err(AlreadyExists);
      }
      if hash in byKey {
        return Err(KeyConflict);
      }
      var period := periodID;
      if period == 0 {
        period := 1;
      }
      var t := T.Tenant(id, hash, T.Active, T.NoReason, period, quota, 0, credit, expireAt);
      store.SaveTenant(t);
      byID := byID[id := t];
      byKey := byKey[hash := id];
      r := Ok(t);
    }

    /** The shared shape of the update operations: look up, change, save. */
    method Update(op: T.Op, t: T.Tenant)
      requires Valid() && t.id in byID && T.Next(View(), op) == T.Put(View(), t)
      modifies this, store
      ensures Valid() && View() == T.Next(old(View()), op)
    {
      T.StepKeepsConsistent(View(), op);
      byID := byID[t.id := t];
      store.SaveTenant(t);
    }

    method AddUsage(id: string, delta: int) returns (r: Result<T.Tenant, Error>)
      requires Valid()
      modifies this, store
      ensures Valid() && View() == T.Next(old(View()), T.AddUsage(id, delta))
      ensures r == if id in byID then Ok(byID[id]) else Err(NotFound)
    {
      var d := delta;
      if d < 0 {
        d := 0;
      }
      if id !in byID {
        return Err(NotFound);
      }
      Update(T.AddUsage(id, delta), byID[id].(usedBytes := byID[id].usedBytes + d));
      r := Ok(byID[id]);
    }

    method SetQuota(id: string, quota: int, credit: int, expireAt: int) returns (r: Result<T.Tenant, Error>)
      requires Valid()
      modifies this, store
      ensures Valid() && View() == T.Next(old(View()), T.SetQuota(id, quota, credit, expireAt))
      ensures r == if id in byID then Ok(byID[id]) else Err(NotFound)
    {
      if id !in byID {
        return Err(NotFound);
      }
      Update(T.SetQuota(id, quota, credit, expireAt),
             byID[id].(quotaBytes := quota, creditLimitBytes := credit, expireAt := expireAt));
      r := Ok(byID[id]);
    }

    method Suspend(id: string, reason: T.Reason) returns (r: Result<T.Tenant, Error>)
      requires Valid()
      modifies this, store
      ensures Valid() && View() == T.Next(old(View()), T.Suspend(id, reason))
      ensures r == if id in byID then Ok(byID[id]) else Err(NotFound)
    {
      if id !in byID {
        return Err(NotFound);
      }
      Update(T.Suspend(id, reason), byID[id].(status := T.Suspended, reason := reason));
      r := Ok(byID[id]);
    }

    method Resume(id: string) returns (r: Result<T.Tenant, Error>)
      requires Valid()
      modifies this, store
      ensures Valid() && View() == T.Next(old(View()), T.Resume(id))
      ensures r == if id in byID then Ok(byID[id]) else Err(NotFound)
    {
      if id !in byID {
        return Err(NotFound);
      }
      Update(T.Resume(id), byID[id].(status := T.Active, reason := T.NoReason));
      r := Ok(byID[id]);
    }

    method ResetPeriod(id: string) returns (r: Result<T.Tenant, Error>)
      requires Valid()
      modifies this, store
      ensures Valid() && View() == T.Next(old(View()), T.ResetPeriod(id))
      ensures r == if id in byID then Ok(byID[id]) else Err(NotFound)
    {
      if id !in byID {
        return Err(NotFound);
      }
      var t := byID[id];
      Update(T.ResetPeriod(id),
             t.(usedBytes := 0, periodID := t.periodID + 1, status := T.Active, reason := T.NoReason));
      r := Ok(byID[id]);
    }

    method Delete(id: string) returns (err: Option<Error>)
      requires Valid()
      modifies this, store
      ensures Valid() && View() == T.Next(old(View()), T.Delete(id))
      ensures err == if id in old(byID) then None else Some(NotFound)
    {
      T.StepKeepsConsistent(View(), T.Delete(id));
      if id !in byID {
        return Some(NotFound);
      }
      store.DeleteTenant(id);
      byKey := byKey - {byID[id].apiKeyHash};
      byID := byID - {id};
      err := None;
    }

    /** One turn of the enforcement loop. */
    method EnforceOne(id: string, now: int) returns (flipped: Option<T.Tenant>)
      requires id in byID && byID[id].id == id
      modifies this`byID, store
      ensures byID == old(byID)[id := T.Enforced(old(byID)[id], now)]
      ensures store.m == if old(byID)[id].Falls(now) then old(store.m)[id := byID[id]] else old(store.m)
      ensures flipped == if old(byID)[id].Falls(now) then Some(byID[id]) else None
    {
      var t := byID[id];
      flipped := None;
      if t.status == T.Active && t.Verdict(now) != T.NoReason {
        t := t.(status := T.Suspended, reason := t.Verdict(now));
        byID := byID[id := t];
        store.SaveTenant(t);
        flipped := Some(t);
      }
    }

    /** The enforcement loop, in any order. */
    method Sweep(now: int) returns (changes: seq<T.Tenant>)
      requires forall id :: id in byID ==> byID[id].id == id
      modifies this`byID, store
      ensures Swept(old(byID), old(store.m), old(byID).Keys, now, byID, store.m, changes)
    {
      changes := [];
      var ids := Enumerate(byID.Keys);
      for i := 0 to |ids|
        invariant Swept(old(byID), old(store.m), Elements(ids[..i]), now, byID, store.m, changes)
      {
        var id := ids[i];
        ghost var done := Elements(ids[..i]);
        Visited(ids, i);
        SweptGrows(old(byID), old(store.m), done, now, byID, store.m, changes, id);
        var flipped := EnforceOne(id, now);
        if flipped.Some? {
          changes := changes + [flipped.value];
        }
      }
      assert ids[..|ids|] == ids;
    }

    /** Enforce reports every tenant it flips, once, as flipped, and nobody else. */
    method Enforce(now: int) returns (changes: seq<T.Tenant>)
      requires Valid()
      modifies this`byID, store
      ensures Valid() && View() == T.Next(old(View()), T.Enforce(now))
      ensures Flips(old(byID), old(byID).Keys, now, changes)
      ensures ReportsSuspended(old(byID), now, changes)
    {
      changes := Sweep(now);
      AllSwept(old(View()), now, View(), changes);
    }
  }

  /** `t` is an active tenant that expired or used up its quota and credit, suspended for it. */
  ghost predicate SuspendedAs(before: T.Tenant, now: int, t: T.Tenant) {
    var expired := before.expireAt > 0 && now > before.expireAt;
    && before.status == T.Active && (expired || before.usedBytes >= before.quotaBytes + before.creditLimitBytes)
    && t == before.(status := T.Suspended, reason := if expired then T.Expired else T.Quota)
  }

  /** Exactly the tenants so suspended are reported. */
  ghost predicate ReportsSuspended(before: map<string, T.Tenant>, now: int, changes: seq<T.Tenant>) {
    forall t :: t in changes <==> t.id in before && SuspendedAs(before[t.id], now, t)
  }

  ghost predicate Swept(before: map<string, T.Tenant>, saved: map<string, T.Tenant>, done: set<string>, now: int,
                        m: map<string, T.Tenant>, stored: map<string, T.Tenant>, changes: seq<T.Tenant>)
  {
    EnforcedSoFar(before, done, now, m) && SavedSoFar(saved, before, done, now, stored) &&
    Flips(before, done, now, changes)
  }

  lemma SweptGrows(before: map<string, T.Tenant>, saved: map<string, T.Tenant>, done: set<string>, now: int,
                   m: map<string, T.Tenant>, stored: map<string, T.Tenant>, changes: seq<T.Tenant>, id: string)
    requires Swept(before, saved, done, now, m, stored, changes) && id in before && id !in done && before[id].id == id
    ensures id in m && m[id] == before[id]
    ensures var after, falls := T.Enforced(before[id], now), before[id].Falls(now);
            Swept(before, saved, done + {id}, now, m[id := after], if falls then stored[id := after] else stored,
                  if falls then changes + [after] else changes)
  {
    EnforcedGrows(before, done, now, m, id);
    SavedGrows(saved, before, done, now, stored, id);
    FlipsGrow(before, done, now, changes, id);
  }

  ghost predicate EnforcedSoFar(before: map<string, T.Tenant>, done: set<string>, now: int, m: map<string, T.Tenant>) {
    && m.Keys == before.Keys
    && forall id :: id in before ==> m[id] == if id in done then T.Enforced(before[id], now) else before[id]
  }

  ghost predicate SavedSoFar(saved: map<string, T.Tenant>, before: map<string, T.Tenant>, done: set<string>,
                             now: int, m: map<string, T.Tenant>) {
    var flipped := done * T.Fallen(before, now);
    && m.Keys == saved.Keys + flipped
    && (forall id :: id in flipped ==> m[id] == T.Enforced(before[id], now))
    && (forall id :: id in saved && id !in flipped ==> m[id] == saved[id])
  }

  /** The tenants of `done` that fell, once each, as they are afterwards. */
  ghost predicate Flips(before: map<string, T.Tenant>, done: set<string>, now: int, changes: seq<T.Tenant>) {
    && NoDuplicates(changes)
    && forall t :: t in changes <==> t.id in done && t.id in T.Fallen(before, now) && t == T.Enforced(before[t.id], now)
  }

  lemma EnforcedGrows(before: map<string, T.Tenant>, done: set<string>, now: int, m: map<string, T.Tenant>, id: string)
    requires EnforcedSoFar(before, done, now, m) && id in before && id !in done
    ensures m[id] == before[id] && EnforcedSoFar(before, done + {id}, now, m[id := T.Enforced(before[id], now)])
  {
  }

  lemma SavedGrows(saved: map<string, T.Tenant>, before: map<string, T.Tenant>, done: set<string>, now: int,
                   m: map<string, T.Tenant>, id: string)
    requires SavedSoFar(saved, before, done, now, m) && id in before && id !in done
    ensures SavedSoFar(saved, before, done + {id}, now,
                       if before[id].Falls(now) then m[id := T.Enforced(before[id], now)] else m)
  {
    var f := T.Fallen(before, now);
    assert (done + {id}) * f == if before[id].Falls(now) then done * f + {id} else done * f;
  }

  lemma FlipsGrow(before: map<string, T.Tenant>, done: set<string>, now: int, changes: seq<T.Tenant>, id: string)
    requires Flips(before, done, now, changes) && id in before && id !in done && before[id].id == id
    ensures Flips(before, done + {id}, now,
                  if before[id].Falls(now) then changes + [T.Enforced(before[id], now)] else changes)
  {
  }

  lemma FlipsExactly(before: map<string, T.Tenant>, now: int, changes: seq<T.Tenant>)
    requires Flips(before, before.Keys, now, changes) && forall id :: id in before ==> before[id].id == id
    ensures ReportsSuspended(before, now, changes)
  {
  }

  lemma AllSwept(r: T.Registry, now: int, r': T.Registry, changes: seq<T.Tenant>)
    requires T.Consistent(r) && r'.byKey == r.byKey
    requires Swept(r.byID, r.saved, r.byID.Keys, now, r'.byID, r'.saved, changes)
    ensures r' == T.Next(r, T.Enforce(now)) && T.Consistent(r') && Flips(r.byID, r.byID.Keys, now, changes)
    ensures ReportsSuspended(r.byID, now, changes)
  {
    AllEnforced(r.byID, now, r'.byID, r.saved, r'.saved);
    T.StepKeepsConsistent(r, T.Enforce(now));
    FlipsExactly(r.byID, now, changes);
  }

  lemma AllEnforced(before: map<string, T.Tenant>, now: int, m: map<string, T.Tenant>, saved: map<string, T.Tenant>,
                    stored: map<string, T.Tenant>)
    requires EnforcedSoFar(before, before.Keys, now, m) && SavedSoFar(saved, before, before.Keys, now, stored)
    ensures m == T.EnforcedAll(before, now) && stored == saved + T.EnforcedOnly(before, now)
  {
    assert before.Keys * T.Fallen(before, now) == T.Fallen(before, now);
  }
}
