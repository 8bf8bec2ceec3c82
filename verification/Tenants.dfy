/**
 * The tenant registry, its store and its decisions, as values (tenant/registry.go, tenant/auth.go, tenant/store.go).
 */
module Tenants {
  import opened Base

  datatype Status = Active | Suspended | Deleted

  datatype Reason = NoReason | Quota | Expired | Manual

  datatype Tenant = Tenant(
    id: string, apiKeyHash: string, status: Status, reason: Reason, periodID: nat,
    quotaBytes: int, usedBytes: int, creditLimitBytes: int, expireAt: int)
  {
    function EffectiveLimit(): int { quotaBytes + creditLimitBytes }

    /** Why an active tenant must be suspended at `now`; expiry is looked at first. */
    function Verdict(now: int): Reason {
      if expireAt > 0 && now > expireAt then Expired
      else if usedBytes >= EffectiveLimit() then Quota
      else NoReason
    }

    predicate Falls(now: int) { status == Active && Verdict(now) != NoReason }
  }

  /** The in-memory indexes and what the store holds. */
  datatype Registry = Registry(byID: map<string, Tenant>, byKey: map<string, string>, saved: map<string, Tenant>)

  const EMPTY := Registry(map[], map[], map[])

  datatype Op =
    | Create(id: string, hash: string, quota: int, credit: int, expireAt: int, period: nat)
    | AddUsage(id: string, delta: int)
    | SetQuota(id: string, quota: int, credit: int, expireAt: int)
    | Suspend(id: string, reason: Reason)
    | Resume(id: string)
    | ResetPeriod(id: string)
    | Delete(id: string)
    | Enforce(now: int)

  // ---- the operations -----------------------------------------------------

  /** Replaces a tenant in memory and in the store. */
  function Put(r: Registry, t: Tenant): Registry {
    r.(byID := r.byID[t.id := t], saved := r.saved[t.id := t])
  }

  function NewTenant(id: string, hash: string, quota: int, credit: int, expireAt: int, period: nat): Tenant {
    Tenant(id, hash, Active, NoReason, if period == 0 then 1 else period, quota, 0, credit, expireAt)
  }

  function Credited(t: Tenant, delta: int): Tenant {
    t.(usedBytes := t.usedBytes + if delta < 0 then 0 else delta)
  }

  function Renewed(t: Tenant): Tenant {
    t.(usedBytes := 0, periodID := t.periodID + 1, status := Active, reason := NoReason)
  }

  function Enforced(t: Tenant, now: int): Tenant {
    if t.Falls(now) then t.(status := Suspended, reason := t.Verdict(now)) else t
  }

  function EnforcedAll(m: map<string, Tenant>, now: int): map<string, Tenant> {
    map id | id in m :: Enforced(m[id], now)
  }

  /** The tenants an enforcement flips. */
  function Fallen(m: map<string, Tenant>, now: int): set<string> {
    set id | id in m && m[id].Falls(now)
  }

  /** The flipped tenants, as an enforcement saves them. */
  function EnforcedOnly(m: map<string, Tenant>, now: int): map<string, Tenant> {
    map id | id in Fallen(m, now) :: Enforced(m[id], now)
  }

  /** A missing tenant or a taken id or key leaves everything as it is. */
  function Next(r: Registry, op: Op): Registry {
    match op
    case Create(id, hash, quota, credit, expireAt, period) =>
      if id in r.byID || hash in r.byKey then r
      else Put(r, NewTenant(id, hash, quota, credit, expireAt, period)).(byKey := r.byKey[hash := id])
    case AddUsage(id, delta) => if id in r.byID then Put(r, Credited(r.byID[id], delta)) else r
    case SetQuota(id, quota, credit, expireAt) =>
      if id in r.byID then Put(r, r.byID[id].(quotaBytes := quota, creditLimitBytes := credit, expireAt := expireAt))
      else r
    case Suspend(id, reason) => if id in r.byID then Put(r, r.byID[id].(status := Suspended, reason := reason)) else r
    case Resume(id) => if id in r.byID then Put(r, r.byID[id].(status := Active, reason := NoReason)) else r
    case ResetPeriod(id) => if id in r.byID then Put(r, Renewed(r.byID[id])) else r
    case Delete(id) =>
      if id in r.byID then Registry(r.byID - {id}, r.byKey - {r.byID[id].apiKeyHash}, r.saved - {id}) else r
    case Enforce(now) =>
      Registry(EnforcedAll(r.byID, now), r.byKey, r.saved + EnforcedOnly(r.byID, now))
  }

  function Run(ops: seq<Op>): Registry {
    if ops == [] then EMPTY else Next(Run(ops[..|ops| - 1]), ops[|ops| - 1])
  }

  // ---- consistency over every run -----------------------------------------

  /** Tenants are filed under their id, none is marked deleted, and the keys are the inverse of the hashes. */
  ghost predicate Indexed(byID: map<string, Tenant>, byKey: map<string, string>) {
    && (forall id :: id in byID ==> byID[id].id == id && byID[id].status != Deleted)
    && (forall id :: id in byID ==> byID[id].apiKeyHash in byKey && byKey[byID[id].apiKeyHash] == id)
    && (forall h :: h in byKey ==> byKey[h] in byID && byID[byKey[h]].apiKeyHash == h)
  }

  /** Memory and store agree. */
  ghost predicate Consistent(r: Registry) {
    Indexed(r.byID, r.byKey) && r.saved == r.byID
  }

  lemma PutKeeps(r: Registry, t: Tenant)
    requires Consistent(r) && t.id in r.byID && t.apiKeyHash == r.byID[t.id].apiKeyHash && t.status != Deleted
    ensures Consistent(Put(r, t))
  {
  }

  lemma CreateKeeps(r: Registry, t: Tenant)
    requires Consistent(r) && t.id !in r.byID && t.apiKeyHash !in r.byKey && t.status != Deleted
    ensures Consistent(Put(r, t).(byKey := r.byKey[t.apiKeyHash := t.id]))
  {
  }

  lemma DeleteKeeps(r: Registry, id: string)
    requires Consistent(r) && id in r.byID
    ensures Consistent(Next(r, Delete(id)))
  {
  }

  lemma EnforceKeeps(r: Registry, now: int)
    requires Consistent(r)
    ensures Consistent(Next(r, Enforce(now)))
  {
    assert r.saved + EnforcedOnly(r.byID, now) == EnforcedAll(r.byID, now);
  }

  lemma StepKeepsConsistent(r: Registry, op: Op)
    requires Consistent(r)
    ensures Consistent(Next(r, op))
  {
    match op
    case Create(id, hash, quota, credit, expireAt, period) =>
      if id !in r.byID && hash !in r.byKey {
        CreateKeeps(r, NewTenant(id, hash, quota, credit, expireAt, period));
      }
    case Delete(id) =>
      if id in r.byID {
        DeleteKeeps(r, id);
      }
    case Enforce(now) =>
      EnforceKeeps(r, now);
    case AddUsage(id, delta) =>
      if id in r.byID {
        PutKeeps(r, Credited(r.byID[id], delta));
      }
    case SetQuota(id, quota, credit, expireAt) =>
      if id in r.byID {
        PutKeeps(r, r.byID[id].(quotaBytes := quota, creditLimitBytes := credit, expireAt := expireAt));
      }
    case Suspend(id, reason) =>
      if id in r.byID {
        PutKeeps(r, r.byID[id].(status := Suspended, reason := reason));
      }
    case Resume(id) =>
      if id in r.byID {
        PutKeeps(r, r.byID[id].(status := Active, reason := NoReason));
      }
    case ResetPeriod(id) =>
      if id in r.byID {
        PutKeeps(r, Renewed(r.byID[id]));
      }
  }

  /** After every run memory and store agree and the two indexes are inverses. */
  lemma {:induction false} RunsAreConsistent(ops: seq<Op>)
    ensures Consistent(Run(ops))
  {
    if ops != [] {
      var r, op := Run(ops[..|ops| - 1]), ops[|ops| - 1];
      RunsAreConsistent(ops[..|ops| - 1]);
      StepKeepsConsistent(r, op);
      assert Run(ops) == Next(r, op);
    }
  }

  // ---- restart ------------------------------------------------------------

  /** NewRegistry over the loaded tenants, in load order. */
  function LoadedByID(loaded: seq<Tenant>): map<string, Tenant> {
    if loaded == [] then map[] else LoadedByID(loaded[..|loaded| - 1])[loaded[|loaded| - 1].id := loaded[|loaded| - 1]]
  }

  function LoadedByKey(loaded: seq<Tenant>): map<string, string> {
    if loaded == [] then map[]
    else
      var t, before := loaded[|loaded| - 1], LoadedByKey(loaded[..|loaded| - 1]);
      if t.status != Deleted then before[t.apiKeyHash := t.id] else before
  }

  lemma {:induction false} LoadedHolds(loaded: seq<Tenant>)
    ensures forall id :: id in LoadedByID(loaded) ==>
              LoadedByID(loaded)[id] in loaded && LoadedByID(loaded)[id].id == id
    ensures forall t :: t in loaded ==> t.id in LoadedByID(loaded)
    ensures forall h :: h in LoadedByKey(loaded) ==>
              exists t :: t in loaded && t.status != Deleted && t.apiKeyHash == h && LoadedByKey(loaded)[h] == t.id
    ensures forall t :: t in loaded && t.status != Deleted ==> t.apiKeyHash in LoadedByKey(loaded)
  {
    if loaded != [] {
      var init, last := loaded[..|loaded| - 1], loaded[|loaded| - 1];
      assert loaded == init + [last];
      LoadedHolds(init);
      forall h | h in LoadedByKey(loaded)
        ensures exists t :: t in loaded && t.status != Deleted && t.apiKeyHash == h && LoadedByKey(loaded)[h] == t.id
      {
        if h in LoadedByKey(init) && LoadedByKey(loaded)[h] == LoadedByKey(init)[h] {
          var t :| t in init && t.status != Deleted && t.apiKeyHash == h && LoadedByKey(init)[h] == t.id;
          assert t in loaded;
        } else {
          assert last in loaded;
        }
      }
    }
  }

  /** Rebuilding from the store, whatever order it yields its tenants in, gives back both indexes. */
  lemma RestartRecovers(r: Registry, loaded: seq<Tenant>)
    requires Consistent(r) && Elements(loaded) == r.saved.Values
    ensures LoadedByID(loaded) == r.byID && LoadedByKey(loaded) == r.byKey
  {
    LoadedHolds(loaded);
    assert forall t :: t in loaded <==> t in r.saved.Values;
    forall id | id in r.byID ensures id in LoadedByID(loaded) && LoadedByID(loaded)[id] == r.byID[id] {
      assert r.byID[id] in loaded;
    }
    forall id | id in LoadedByID(loaded) ensures id in r.byID {
      assert LoadedByID(loaded)[id] in r.saved.Values;
    }
    RestartRecoversKeys(r, loaded);
  }

  lemma RestartRecoversKeys(r: Registry, loaded: seq<Tenant>)
    requires Consistent(r) && (forall t :: t in loaded <==> t in r.saved.Values)
    ensures LoadedByKey(loaded) == r.byKey
  {
    LoadedHolds(loaded);
    forall h | h in r.byKey ensures h in LoadedByKey(loaded) {
      assert r.byID[r.byKey[h]] in loaded;
    }
    forall h | h in LoadedByKey(loaded) ensures h in r.byKey && r.byKey[h] == LoadedByKey(loaded)[h] {
      var t :| t in loaded && t.status != Deleted && t.apiKeyHash == h && LoadedByKey(loaded)[h] == t.id;
      assert t in r.saved.Values;
    }
  }

  // ---- authorization and enforcement --------------------------------------

  datatype Code = Okay | Unauthenticated | PermissionDenied | ResourceExhausted

  datatype Decision = Decision(allowed: bool, code: Code, reason: Reason, tenant: Option<Tenant>)

  /** Authorize, on the hash of the presented key. */
  function Authorize(r: Registry, hash: string, now: int): Decision {
    if hash !in r.byKey || r.byKey[hash] !in r.byID then Decision(false, Unauthenticated, NoReason, None)
    else
      var t := r.byID[r.byKey[hash]];
      if t.status == Deleted then Decision(false, Unauthenticated, NoReason, Some(t))
      else if t.status == Suspended then Decision(false, PermissionDenied, t.reason, Some(t))
      else if t.expireAt > 0 && now > t.expireAt then Decision(false, PermissionDenied, Expired, Some(t))
      else if t.usedBytes >= t.EffectiveLimit() then Decision(false, ResourceExhausted, Quota, Some(t))
      else Decision(true, Okay, NoReason, Some(t))
  }

  /** The tenant a key belongs to, by its hash. */
  ghost predicate Owns(r: Registry, id: string, hash: string) {
    id in r.byID && r.byID[id].apiKeyHash == hash
  }

  /**
   * A key is allowed exactly when it is that of an active tenant, not expired, whose used bytes are below its quota and
   * credit together.
   */
  lemma AuthorizeExactly(r: Registry, hash: string, now: int)
    requires Consistent(r)
    ensures Authorize(r, hash, now).allowed <==>
            exists id :: Owns(r, id, hash) &&
              var t := r.byID[id];
              && t.status == Active && !(t.expireAt > 0 && now > t.expireAt)
              && t.usedBytes < t.quotaBytes + t.creditLimitBytes
    ensures (!exists id :: Owns(r, id, hash)) ==>
              Authorize(r, hash, now) == Decision(false, Unauthenticated, NoReason, None)
  {
    if hash in r.byKey {
      assert Owns(r, r.byKey[hash], hash);
    }
  }

  /** What a known key's tenant is told: its suspension and the reason of it, else its expiry, else its quota. */
  lemma RefusalExactly(r: Registry, id: string, now: int)
    requires Consistent(r) && id in r.byID
    ensures var t := r.byID[id];
            var d := Authorize(r, t.apiKeyHash, now);
            && d.tenant == Some(t)
            && (t.status == Suspended ==> !d.allowed && d.code == PermissionDenied && d.reason == t.reason)
            && (t.status == Active && t.expireAt > 0 && now > t.expireAt ==>
                  !d.allowed && d.code == PermissionDenied && d.reason == Expired)
            && (t.status == Active && !(t.expireAt > 0 && now > t.expireAt) ==>
                  if t.usedBytes < t.quotaBytes + t.creditLimitBytes
                  then d.allowed && d.code == Okay && d.reason == NoReason
                  else !d.allowed && d.code == ResourceExhausted && d.reason == Quota)
  {
  }

  /** An enforcement suspends the active tenants that are expired or out of quota and credit, and nobody else. */
  lemma EnforceExactly(r: Registry, id: string, now: int)
    requires id in r.byID
    ensures var t, t' := r.byID[id], Next(r, Enforce(now)).byID[id];
            var expired := t.expireAt > 0 && now > t.expireAt;
            if t.status == Active && (expired || t.usedBytes >= t.quotaBytes + t.creditLimitBytes)
            then t' == t.(status := Suspended, reason := if expired then Expired else Quota)
            else t' == t
  {
  }

  /** The tenant an operation leaves under an id, in the fields of the tenant before and of the operation. */
  lemma CreatedExactly(r: Registry, op: Op)
    requires op.Create? && op.id !in r.byID && op.hash !in r.byKey
    ensures op.id in Next(r, op).byID && Next(r, op).byKey == r.byKey[op.hash := op.id]
    ensures var t := Next(r, op).byID[op.id];
            && t.id == op.id && t.apiKeyHash == op.hash && t.status == Active && t.reason == NoReason
            && t.periodID == (if op.period == 0 then 1 else op.period)
            && t.quotaBytes == op.quota && t.creditLimitBytes == op.credit && t.expireAt == op.expireAt
            && t.usedBytes == 0
    ensures forall other :: other in r.byID ==> other in Next(r, op).byID && Next(r, op).byID[other] == r.byID[other]
  {
  }

  lemma UpdatedExactly(r: Registry, op: Op, id: string)
    requires Consistent(r) && id in r.byID && !op.Create? && !op.Delete? && !op.Enforce?
    ensures id in Next(r, op).byID
    ensures var t, t' := r.byID[id], Next(r, op).byID[id];
            && (op.id != id ==> t' == t)
            && t'.id == t.id && t'.apiKeyHash == t.apiKeyHash
            && (op.id == id ==>
                match op
                case AddUsage(_, delta) =>
                  t'.(usedBytes := t.usedBytes) == t &&
                  t'.usedBytes == if delta > 0 then t.usedBytes + delta else t.usedBytes
                case SetQuota(_, quota, credit, expireAt) =>
                  && t'.quotaBytes == quota && t'.creditLimitBytes == credit && t'.expireAt == expireAt
                  && t'.usedBytes == t.usedBytes && t'.periodID == t.periodID && t'.status == t.status
                  && t'.reason == t.reason
                case Suspend(_, reason) =>
                  t'.status == Suspended && t'.reason == reason && t'.(status := t.status, reason := t.reason) == t
                case Resume(_) =>
                  t'.status == Active && t'.reason == NoReason && t'.(status := t.status, reason := t.reason) == t
                case ResetPeriod(_) =>
                  && t'.usedBytes == 0 && t'.periodID == t.periodID + 1 && t'.status == Active && t'.reason == NoReason
                  && t'.quotaBytes == t.quotaBytes && t'.creditLimitBytes == t.creditLimitBytes
                  && t'.expireAt == t.expireAt
                case _ => true)
  {
  }

  /** A key is allowed exactly when it is an active tenant's that an enforcement at the same time would leave active. */
  lemma AuthorizeMatchesEnforce(r: Registry, hash: string, now: int)
    requires Consistent(r)
    ensures Authorize(r, hash, now).allowed <==>
            exists id :: id in r.byID && r.byID[id].apiKeyHash == hash &&
                         r.byID[id].status == Active && Next(r, Enforce(now)).byID[id].status == Active
    ensures Authorize(r, hash, now).code == Unauthenticated <==>
            !exists id :: id in r.byID && r.byID[id].apiKeyHash == hash
    ensures Authorize(r, hash, now).allowed ==> Authorize(Next(r, Enforce(now)), hash, now) == Authorize(r, hash, now)
    ensures !Authorize(r, hash, now).allowed ==> !Authorize(Next(r, Enforce(now)), hash, now).allowed
  {
    if hash in r.byKey {
      var id := r.byKey[hash];
      assert id in r.byID && r.byID[id].apiKeyHash == hash;
    }
  }

  lemma NobodyFallsTwice(m: map<string, Tenant>, now: int)
    ensures Fallen(EnforcedAll(m, now), now) == {}
    ensures EnforcedAll(EnforcedAll(m, now), now) == EnforcedAll(m, now)
  {
  }

  /** A second enforcement at the same time flips nobody and changes nothing. */
  lemma EnforceSettles(r: Registry, now: int)
    ensures Fallen(Next(r, Enforce(now)).byID, now) == {}
    ensures Next(Next(r, Enforce(now)), Enforce(now)) == Next(r, Enforce(now))
  {
    NobodyFallsTwice(r.byID, now);
    assert EnforcedOnly(EnforcedAll(r.byID, now), now) == map[];
  }

  /** The operations that can end a suspension or start a new period. */
  predicate Releases(op: Op, id: string) {
    (op.Resume? && op.id == id) || (op.ResetPeriod? && op.id == id) || (op.Delete? && op.id == id)
  }

  function RunFrom(r: Registry, ops: seq<Op>): Registry {
    if ops == [] then r else Next(RunFrom(r, ops[..|ops| - 1]), ops[|ops| - 1])
  }

  /** What one operation may do to a tenant it does not release: it keeps its key and period, its usage cannot fall. */
  ghost predicate Carries(t: Tenant, u: Tenant) {
    && u.id == t.id && u.apiKeyHash == t.apiKeyHash && u.periodID == t.periodID && u.usedBytes >= t.usedBytes
    && (t.status != Active ==> u.status != Active)
  }

  lemma StepCarries(r: Registry, op: Op, id: string)
    requires Consistent(r) && id in r.byID && !Releases(op, id)
    ensures id in Next(r, op).byID && Carries(r.byID[id], Next(r, op).byID[id])
  {
  }

  /**
   * Until it is resumed, reset or deleted, a suspended tenant stays denied at every time, and no tenant's usage falls
   * within its period.
   */
  lemma {:induction false} SuspendedStaysDenied(r: Registry, ops: seq<Op>, id: string, now: int)
    requires Consistent(r) && id in r.byID
    requires forall i :: 0 <= i < |ops| ==> !Releases(ops[i], id)
    ensures Consistent(RunFrom(r, ops)) && id in RunFrom(r, ops).byID && Carries(r.byID[id], RunFrom(r, ops).byID[id])
    ensures r.byID[id].status == Suspended ==> !Authorize(RunFrom(r, ops), r.byID[id].apiKeyHash, now).allowed
  {
    if ops != [] {
      var mid, op := RunFrom(r, ops[..|ops| - 1]), ops[|ops| - 1];
      SuspendedStaysDenied(r, ops[..|ops| - 1], id, now);
      StepKeepsConsistent(mid, op);
      StepCarries(mid, op, id);
      assert RunFrom(r, ops) == Next(mid, op);
    }
  }
}
