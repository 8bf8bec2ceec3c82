/** The manager as a state machine: polling, configuration, and the invariant over every run. */
module SharedRuns {
  import opened Base
  import opened Common
  import opened XrayAccounts
  import opened XrayInbounds
  import opened SharedState
  import opened SharedOps
  import opened Usage
  import T = Tenants

  // ---- CollectAndEnforce --------------------------------------------------

  /** The bytes a poll charges for one email. */
  function EmailDelta(s: State, totals: map<string, nat>): string -> int {
    e => if e in totals then Delta(Lookup(s.lastSeen, e), totals[e]) else 0
  }

  /** The polled emails of a tenant. */
  function Polled(s: State, totals: map<string, nat>, id: string): set<string> {
    set e | e in totals && Lookup(s.emailTo, e) == Some(id)
  }

  /** What a poll charges to a tenant: the deltas of its own users. */
  ghost function Charge(s: State, totals: map<string, nat>, id: string): int {
    Sum(EmailDelta(s, totals), Polled(s, totals, id))
  }

  /** The registry after every tenant is charged. */
  ghost predicate Charged(s: State, totals: map<string, nat>, reg': T.Registry) {
    && reg'.byKey == s.reg.byKey && reg'.byID.Keys == s.reg.byID.Keys && reg'.saved == reg'.byID
    && forall id :: id in s.reg.byID ==>
         reg'.byID[id] == s.reg.byID[id].(usedBytes := s.reg.byID[id].usedBytes + Charge(s, totals, id))
  }

  /** The accounting half of a poll; a core that gave no statistics charges nothing. */
  ghost predicate Accounted(s: State, rows: Option<seq<Row>>, s': State) {
    && SameUsers(s, s') && s'.core == s.core
    && if rows.None? then s'.reg == s.reg && s'.lastSeen == s.lastSeen
       else
         var totals := Totals(rows.value);
         && Charged(s, totals, s'.reg)
         && forall e :: Lookup(s'.lastSeen, e) == if e in totals then Some(totals[e]) else Lookup(s.lastSeen, e)
  }

  /** The enforcement half: the tenants that fall leave the core. */
  ghost predicate EnforceDone(s: State, now: int, s': State) {
    && SameUsers(s, s') && s'.lastSeen == s.lastSeen
    && s'.reg == T.Next(s.reg, T.Enforce(now))
    && CoreMoved(s.core, map[], Emails(s, T.Fallen(s.reg.byID, now)), s'.core)
  }

  ghost predicate CollectDone(s: State, rows: Option<seq<Row>>, now: int, s': State) {
    exists mid :: Accounted(s, rows, mid) && EnforceDone(mid, now, s')
  }

  lemma ChargedIsConsistent(s: State, totals: map<string, nat>, reg': T.Registry)
    requires T.Consistent(s.reg) && Charged(s, totals, reg')
    ensures T.Consistent(reg')
    ensures forall id :: id in s.reg.byID ==> reg'.byID[id].status == s.reg.byID[id].status
  {
  }

  lemma AccountedKeeps(s: State, rows: Option<seq<Row>>, s': State)
    requires Invariant(s) && Accounted(s, rows, s')
    ensures Invariant(s')
  {
    AccountedStanding(s, rows, s');
    SameUsersKeeps(s, s');
    SameStandingKeepsExact(s, s');
  }

  lemma AccountedStanding(s: State, rows: Option<seq<Row>>, s': State)
    requires T.Consistent(s.reg) && Accounted(s, rows, s')
    ensures SameStanding(s, s') && T.Consistent(s'.reg) && s'.reg.byID.Keys == s.reg.byID.Keys
  {
    if rows.Some? {
      ChargedIsConsistent(s, Totals(rows.value), s'.reg);
    }
  }

  /** The same users, and for each tenant that has some the same standing. */
  ghost predicate SameStanding(s: State, s': State) {
    && s'.emailTo == s.emailTo
    && forall id :: id in s.users ==> s'.Users(id) == s.Users(id) && s'.IsActive(id) == s.IsActive(id)
  }

  /** While users and their tenants' standing stay, so does exactness. */
  lemma SameStandingKeepsExact(s: State, s': State)
    requires Inverse(s) && Exact(s) && s'.core == s.core && SameStanding(s, s')
    ensures Exact(s')
  {
    if s.core.Some? {
      forall i | 0 <= i < |s.core.value| ensures ExactAt(s', s'.core.value[i]) {
        assert ExactAt(s, s.core.value[i]);
        forall e {
          SameStandingSameDue(s, s', e);
        }
      }
    }
  }

  lemma SameStandingSameDue(s: State, s': State, e: string)
    requires Inverse(s) && SameStanding(s, s')
    ensures DueUser(s', e) == DueUser(s, e)
  {
    assert e in s.emailTo ==> Lookup(s.emailTo, e) == Some(s.emailTo[e]);
  }

  lemma EnforceStatuses(reg: T.Registry, now: int, id: string)
    requires id in reg.byID
    ensures id in T.Next(reg, T.Enforce(now)).byID
    ensures T.Next(reg, T.Enforce(now)).byID[id].status == T.Active <==>
              reg.byID[id].status == T.Active && id !in T.Fallen(reg.byID, now)
    ensures T.Next(reg, T.Enforce(now)).byID[id].usedBytes == reg.byID[id].usedBytes
  {
  }

  lemma EnforceKeeps(s: State, now: int, s': State)
    requires Invariant(s) && EnforceDone(s, now, s')
    ensures Invariant(s')
  {
    T.StepKeepsConsistent(s.reg, T.Enforce(now));
    forall id | id in s.users ensures s'.IsActive(id) == (s.IsActive(id) && id !in T.Fallen(s.reg.byID, now)) {
      EnforceStatuses(s.reg, now, id);
    }
    FallKeeps(s, T.Fallen(s.reg.byID, now), s');
  }

  /** A poll raises every tenant's usage by exactly the sum of its own users' deltas. */
  lemma PollCharges(s: State, rows: seq<Row>, now: int, s': State, id: string)
    requires CollectDone(s, Some(rows), now, s') && id in s.reg.byID
    ensures id in s'.reg.byID && s'.reg.byID[id].usedBytes == s.reg.byID[id].usedBytes + Charge(s, Totals(rows), id)
    ensures s'.reg.byID[id].usedBytes ==
            s.reg.byID[id].usedBytes + Sum(Growth(s, rows), PolledNames(s, rows, id))
  {
    ChargeExactly(s, rows, id);
    var mid :| Accounted(s, Some(rows), mid) && EnforceDone(mid, now, s');
    assert Charged(s, Totals(rows), mid.reg);
    EnforceStatuses(mid.reg, now, id);
  }

  /** The names among the rows that are users of the tenant. */
  ghost function PolledNames(s: State, rows: seq<Row>, id: string): set<string> {
    set i | 0 <= i < |rows| && Lookup(s.emailTo, rows[i].name) == Some(id) :: rows[i].name
  }

  /** The growth of a name's bytes over the last reading, or all of them if they are fewer. */
  ghost function Growth(s: State, rows: seq<Row>): string -> int {
    e =>
      var bytes, last := BytesOf(rows, e), if e in s.lastSeen then s.lastSeen[e] else 0;
      if bytes >= last then bytes - last else bytes
  }

  /** The charge in the rows' own terms: over the tenant's users, what their rows together grew by. */
  lemma ChargeExactly(s: State, rows: seq<Row>, id: string)
    ensures Charge(s, Totals(rows), id) == Sum(Growth(s, rows), PolledNames(s, rows, id))
  {
    TotalsExactly(rows);
    assert Polled(s, Totals(rows), id) == PolledNames(s, rows, id);
    SumAgrees(EmailDelta(s, Totals(rows)), Growth(s, rows), PolledNames(s, rows, id));
  }

  /** After a poll a tenant is active exactly if it was, is not expired, and has quota or credit left. */
  lemma PollSuspendsExactly(s: State, rows: Option<seq<Row>>, now: int, s': State, id: string)
    requires CollectDone(s, rows, now, s') && id in s.reg.byID
    ensures id in s'.reg.byID
    ensures var t, t' := s.reg.byID[id], s'.reg.byID[id];
            t'.status == T.Active <==>
            && t.status == T.Active && !(t.expireAt > 0 && now > t.expireAt)
            && t'.usedBytes < t.quotaBytes + t.creditLimitBytes
  {
    var mid :| Accounted(s, rows, mid) && EnforceDone(mid, now, s');
    AccountedTenant(s, rows, mid, id);
    StandsExactly(mid.reg, id, now, s.reg.byID[id]);
  }

  lemma StandsExactly(reg: T.Registry, id: string, now: int, t: T.Tenant)
    requires id in reg.byID && reg.byID[id].(usedBytes := t.usedBytes) == t
    ensures id in T.Next(reg, T.Enforce(now)).byID
    ensures var t' := T.Next(reg, T.Enforce(now)).byID[id];
            t'.status == T.Active <==>
            && t.status == T.Active && !(t.expireAt > 0 && now > t.expireAt)
            && t'.usedBytes < t.quotaBytes + t.creditLimitBytes
  {
    T.EnforceExactly(reg, id, now);
  }

  /** Accounting changes nothing of a tenant but its used bytes. */
  lemma AccountedTenant(s: State, rows: Option<seq<Row>>, mid: State, id: string)
    requires Accounted(s, rows, mid) && id in s.reg.byID
    ensures id in mid.reg.byID && mid.reg.byID[id].(usedBytes := s.reg.byID[id].usedBytes) == s.reg.byID[id]
  {
    if rows.Some? {
      assert Charged(s, Totals(rows.value), mid.reg);
    }
  }

  lemma ChargeNonNegative(s: State, totals: map<string, nat>, id: string)
    ensures Charge(s, totals, id) >= 0
  {
    SumNonNegative(EmailDelta(s, totals), Polled(s, totals, id));
  }

  // ---- the core's life ----------------------------------------------------

  /** An inbound fresh from the configuration has no clients. */
  ghost predicate FreshCore(core: Core) {
    forall i :: 0 <= i < |core| ==> SoundInbound(core[i]) && core[i].clients == map[]
  }

  /** ApplyConfig: stop, start, and re-apply the users of the active tenants; a failed start leaves no core. */
  ghost predicate ConfigDone(s: State, fresh': Option<Core>, s': State) {
    && SameUsers(s, s') && s'.reg == s.reg && s'.lastSeen == s.lastSeen
    && (fresh'.Some? ==> FreshCore(fresh'.value))
    && exists m :: Members(s, ActiveIds(s), m) && CoreMoved(fresh', m, {}, s'.core)
  }

  ghost function ActiveIds(s: State): set<string> {
    set id | id in s.users && s.IsActive(id)
  }

  lemma ConfigKeeps(s: State, fresh': Option<Core>, s': State)
    requires Invariant(s) && ConfigDone(s, fresh', s')
    ensures Invariant(s')
  {
    SameUsersKeeps(s, s');
    ConfigIsExact(s, fresh', s');
  }

  lemma ConfigIsExact(s: State, fresh': Option<Core>, s': State)
    requires Inverse(s) && ConfigDone(s, fresh', s')
    ensures Exact(s')
  {
    var m :| Members(s, ActiveIds(s), m) && CoreMoved(fresh', m, {}, s'.core);
    ReappliedIsExact(s, fresh', m, s');
  }

  lemma ReappliedIsExact(s: State, fresh': Option<Core>, m: map<string, User>, s': State)
    requires Inverse(s) && SameUsers(s, s') && s'.reg == s.reg && (fresh'.Some? ==> FreshCore(fresh'.value))
    requires Members(s, ActiveIds(s), m) && CoreMoved(fresh', m, {}, s'.core)
    ensures Exact(s')
  {
    assert SameStanding(s, s');
    forall e ensures DueUser(s', e) == Lookup(m, e) {
      DueAfterConfig(s, m, e);
      SameStandingSameDue(s, s', e);
    }
    FilledIsExact(fresh', m, s');
  }

  /** An empty core filled with all users due is exact. */
  lemma FilledIsExact(fresh': Option<Core>, m: map<string, User>, s': State)
    requires fresh'.Some? ==> FreshCore(fresh'.value)
    requires CoreMoved(fresh', m, {}, s'.core) && forall e :: DueUser(s', e) == Lookup(m, e)
    ensures Exact(s')
  {
  }

  lemma DueAfterConfig(s: State, m: map<string, User>, e: string)
    requires Inverse(s) && Members(s, ActiveIds(s), m)
    ensures DueUser(s, e) == Lookup(m, e)
  {
    EmailsByIndex(s, ActiveIds(s), e);
    if e in s.emailTo {
      assert Lookup(s.emailTo, e) == Some(s.emailTo[e]);
    }
    if e in m {
      var id :| id in ActiveIds(s) && e in s.Users(id) && m[e] == s.Users(id)[e];
      assert Lookup(s.emailTo, e) == Some(id);
    }
  }

  /** StartCore brings up the core and re-adds nobody: it is exact only if no active tenant has a user to serve. */
  lemma StartCoreReaddsNobody(s: State, fresh': Core)
    requires FreshCore(fresh')
    ensures Exact(s.(core := Some(fresh'))) <==>
            forall i, e :: 0 <= i < |fresh'| ==> Due(fresh'[i], DueUser(s, e)).None?
  {
    var s' := s.(core := Some(fresh'));
    assert forall e :: DueUser(s', e) == DueUser(s, e);
    if forall i, e :: 0 <= i < |fresh'| ==> Due(fresh'[i], DueUser(s, e)).None? {
      assert forall i :: 0 <= i < |fresh'| ==> ExactAt(s', fresh'[i]);
    }
    if Exact(s') {
      forall i, e | 0 <= i < |fresh'| ensures Due(fresh'[i], DueUser(s, e)).None? {
        assert ExactAt(s', fresh'[i]);
        assert fresh'[i].At(e).None?;
      }
    }
  }

  // ---- steps --------------------------------------------------------------

  datatype Op =
    | CreateTenant(id: string, hash: string, quota: int, credit: int, expireAt: int, period: nat)
    | SetQuota(id: string, quota: int, credit: int, expireAt: int)
    | SetUsers(id: string, users: seq<User>)
    | AddUsers(id: string, users: seq<User>)
    | SuspendTenant(id: string, reason: T.Reason)
    | ResumeTenant(id: string)
    | ResetTenant(id: string)
    | DeleteTenant(id: string)
    | Collect(rows: Option<seq<Row>>, now: int)
    | StartCore(started: Option<Core>)
    | ApplyConfig(started: Option<Core>)
    | Stop
    | ForceInbounds(tags: seq<string>)

  /** The tenant's user map exists from the first merge on. */
  function Ensured(s: State, id: string): State {
    s.(users := s.users[id := s.Users(id)])
  }

  /** The state after a list of users is merged in, one after another. */
  ghost predicate AddedAll(s: State, id: string, users: seq<User>, s': State)
    decreases |users|, 0
  {
    if users == [] then s' == Ensured(s, id) else AddedOneMore(s, id, users[..|users| - 1], users[|users| - 1], s')
  }

  ghost predicate AddedOneMore(s: State, id: string, users: seq<User>, u: User, s': State)
    decreases |users|, 1
  {
    exists mid :: AddedAll(s, id, users, mid) && AddOne(mid, id, u, s')
  }

  ghost predicate AddOne(s: State, id: string, u: User, s': State) {
    var nu := BuildUser(s, id, u);
    Free(s.creds, id, map[nu.email := nu]) && AddDone(s, id, nu, s')
  }

  /** Suspension, resumption and reset: the registry changes and the tenant's users follow. */
  ghost predicate StatusDone(s: State, op: T.Op, put: map<string, User>, out: set<string>, s': State) {
    SameUsers(s, s') && s'.lastSeen == s.lastSeen && s'.reg == T.Next(s.reg, op) && CoreMoved(s.core, put, out, s'.core)
  }

  /** Deleting an unknown tenant: users still filed under that id leave the core, nothing else changes. */
  ghost predicate EvictDone(s: State, id: string, s': State) {
    SameUsers(s, s') && s'.lastSeen == s.lastSeen && s'.reg == s.reg &&
    CoreMoved(s.core, map[], s.Users(id).Keys, s'.core)
  }

  ghost predicate SetStep(s: State, id: string, users: seq<User>, s': State) {
    var set' := NewSet(s, id, users);
    if Acceptable(s, id, set') then SetDone(s, id, set', s') else s' == s
  }

  /** Users are merged in order until one carries another tenant's credential or the live core refuses it. */
  ghost predicate AddStep(s: State, id: string, users: seq<User>, s': State) {
    if id in s.reg.byID then exists n: nat :: n <= |users| && AddedAll(s, id, users[..n], s') else s' == s
  }

  ghost predicate SuspendStep(s: State, id: string, reason: T.Reason, s': State) {
    if id in s.reg.byID then StatusDone(s, T.Suspend(id, reason), map[], s.Users(id).Keys, s') else s' == s
  }

  ghost predicate ResumeStep(s: State, id: string, s': State) {
    if id in s.reg.byID then StatusDone(s, T.Resume(id), s.Users(id), {}, s') else s' == s
  }

  /** A new period, then a resumption. */
  ghost predicate ResetStep(s: State, id: string, s': State) {
    if id in s.reg.byID then ResumeStep(s.(reg := T.Next(s.reg, T.ResetPeriod(id))), id, s') else s' == s
  }

  ghost predicate DeleteStep(s: State, id: string, s': State) {
    if id in s.reg.byID then DeleteDone(s, id, s') else EvictDone(s, id, s')
  }

  ghost predicate CollectStep(s: State, rows: Option<seq<Row>>, now: int, s': State) {
    if s.core.Some? then CollectDone(s, rows, now, s') else s' == s
  }

  ghost predicate StartStep(s: State, started: Option<Core>, s': State) {
    if s.core.None? && started.Some? then FreshCore(started.value) && s' == s.(core := started) else s' == s
  }

  /** A refused operation changes nothing. */
  ghost predicate Step(s: State, op: Op, s': State) {
    match op
    case CreateTenant(id, hash, quota, credit, expireAt, period) =>
      s' == s.(reg := T.Next(s.reg, T.Create(id, hash, quota, credit, expireAt, period)))
    case SetQuota(id, quota, credit, expireAt) =>
      s' == s.(reg := T.Next(s.reg, T.SetQuota(id, quota, credit, expireAt)))
    case SetUsers(id, users) => SetStep(s, id, users, s')
    case AddUsers(id, users) => AddStep(s, id, users, s')
    case SuspendTenant(id, reason) => SuspendStep(s, id, reason, s')
    case ResumeTenant(id) => ResumeStep(s, id, s')
    case ResetTenant(id) => ResetStep(s, id, s')
    case DeleteTenant(id) => DeleteStep(s, id, s')
    case Collect(rows, now) => CollectStep(s, rows, now, s')
    case StartCore(started) => StartStep(s, started, s')
    case ApplyConfig(started) => ConfigDone(s, started, s')
    case Stop => s' == s.(core := None)
    case ForceInbounds(tags) => s' == s.(forceInbounds := tags)
  }

  /** The boundary: new tenant ids have no dot, and a core is started by itself only while it has nobody to serve. */
  ghost predicate Proper(s: State, op: Op) {
    && (op.CreateTenant? ==> Dotless(op.id))
    && (op.StartCore? && op.started.Some? && s.core.None? ==>
          forall i, e :: 0 <= i < |op.started.value| ==> Due(op.started.value[i], DueUser(s, e)).None?)
  }

  // ---- every step keeps the invariant -------------------------------------

  lemma RegistryStepKeeps(s: State, op: T.Op, s': State)
    requires Invariant(s) && s' == s.(reg := T.Next(s.reg, op))
    requires (op.Create? && Dotless(op.id)) || op.SetQuota?
    ensures Invariant(s')
  {
    T.StepKeepsConsistent(s.reg, op);
    SameUsersKeeps(s, s');
    RegistryStepKeepsStanding(s, op, s');
    SameStandingKeepsExact(s, s');
  }

  lemma RegistryStepKeepsStanding(s: State, op: T.Op, s': State)
    requires T.Consistent(s.reg) && s' == s.(reg := T.Next(s.reg, op)) && (op.Create? || op.SetQuota?)
    requires forall id :: id in s.users ==> id in s.reg.byID
    ensures SameStanding(s, s')
  {
  }

  lemma EnsuredKeeps(s: State, id: string)
    requires Invariant(s) && id in s.reg.byID
    ensures Invariant(Ensured(s, id))
  {
    EnsuredKeepsInverse(s, id);
    EnsuredKeepsNames(s, id);
    SameStandingKeepsExact(s, Ensured(s, id));
  }

  lemma EnsuredKeepsNames(s: State, id: string)
    requires Named(s) && CredsSound(s) && id in s.reg.byID
    ensures Named(Ensured(s, id)) && CredsSound(Ensured(s, id))
  {
  }

  lemma EnsuredKeepsInverse(s: State, id: string)
    requires Inverse(s)
    ensures Inverse(Ensured(s, id))
  {
  }

  lemma {:induction false} AddedAllKeeps(s: State, id: string, users: seq<User>, s': State)
    requires Invariant(s) && id in s.reg.byID && AddedAll(s, id, users, s')
    ensures Invariant(s') && s'.reg == s.reg
    decreases |users|
  {
    if users == [] {
      EnsuredKeeps(s, id);
    } else {
      var init, u := users[..|users| - 1], users[|users| - 1];
      assert AddedOneMore(s, id, init, u, s');
      var mid :| AddedAll(s, id, init, mid) && AddOne(mid, id, u, s');
      AddedAllKeeps(s, id, init, mid);
      AddKeeps(mid, id, BuildUser(mid, id, u), s');
    }
  }

  /** Merging a list leaves the tenant with its users before and the list's, for each email the last. */
  lemma {:induction false} AddedExactly(s: State, id: string, users: seq<User>, s': State)
    requires AddedAll(s, id, users, s')
    ensures s'.forceInbounds == s.forceInbounds && id in s'.users
    ensures Merges(s.forceInbounds, id, users, s.Users(id), s'.users[id])
    ensures forall other :: other != id ==> s'.Users(other) == s.Users(other)
    decreases |users|
  {
    if users != [] {
      var init, u := users[..|users| - 1], users[|users| - 1];
      assert AddedOneMore(s, id, init, u, s');
      var mid :| AddedAll(s, id, init, mid) && AddOne(mid, id, u, s');
      AddedExactly(s, id, init, mid);
      assert init + [u] == users;
      MergesOneMore(s.forceInbounds, id, init, s.Users(id), mid.users[id], u, BuildUser(mid, id, u));
    }
  }

  /** A replacement that goes through leaves the tenant with exactly the list's users, and the others with theirs. */
  lemma SetExactly(s: State, id: string, users: seq<User>, s': State)
    requires SetStep(s, id, users, s') && Acceptable(s, id, NewSet(s, id, users))
    ensures id in s'.users && Merges(s.forceInbounds, id, users, map[], s'.users[id])
    ensures forall other :: other != id ==> s'.Users(other) == s.Users(other)
  {
    NewSetExactly(s, id, users);
  }

  lemma SuspendKeeps(s: State, id: string, reason: T.Reason, s': State)
    requires Invariant(s) && SuspendStep(s, id, reason, s')
    ensures Invariant(s')
  {
    if id in s.reg.byID {
      T.StepKeepsConsistent(s.reg, T.Suspend(id, reason));
      EmailsOfOne(s, id);
      FallKeeps(s, {id}, s');
    }
  }

  lemma ResumeKeeps(s: State, id: string, s': State)
    requires Invariant(s) && ResumeStep(s, id, s')
    ensures Invariant(s')
  {
    if id in s.reg.byID {
      T.StepKeepsConsistent(s.reg, T.Resume(id));
      RiseKeeps(s, id, s');
    }
  }

  /**
   * Straight from the state before the reset: in between, the tenant is active and its users are not in the core yet.
   */
  lemma ResetKeeps(s: State, id: string, s': State)
    requires Invariant(s) && ResetStep(s, id, s')
    ensures Invariant(s')
  {
    if id in s.reg.byID {
      ResetRaises(s.reg, id);
      ResetIsOneMove(s, id, s');
      RiseKeeps(s, id, s');
    }
  }

  lemma ResetIsOneMove(s: State, id: string, s': State)
    requires id in s.reg.byID && ResetStep(s, id, s')
    ensures SameUsers(s, s') && CoreMoved(s.core, s.Users(id), {}, s'.core)
    ensures s'.reg == T.Next(T.Next(s.reg, T.ResetPeriod(id)), T.Resume(id))
  {
  }

  lemma ResetRaises(r: T.Registry, id: string)
    requires T.Consistent(r) && id in r.byID
    ensures var after := T.Next(T.Next(r, T.ResetPeriod(id)), T.Resume(id));
            && T.Consistent(after) && after.byID.Keys == r.byID.Keys
            && forall t :: t in r.byID ==>
                 (after.byID[t].status == T.Active <==> r.byID[t].status == T.Active || t == id)
  {
    T.StepKeepsConsistent(r, T.ResetPeriod(id));
    T.StepKeepsConsistent(T.Next(r, T.ResetPeriod(id)), T.Resume(id));
  }

  lemma SetStepKeeps(s: State, id: string, users: seq<User>, s': State)
    requires Invariant(s) && SetStep(s, id, users, s')
    ensures Invariant(s')
  {
    NewSetIsNamed(s, id, users);
    if Acceptable(s, id, NewSet(s, id, users)) {
      SetKeeps(s, id, NewSet(s, id, users), s');
    }
  }

  lemma AddStepKeeps(s: State, id: string, users: seq<User>, s': State)
    requires Invariant(s) && AddStep(s, id, users, s')
    ensures Invariant(s')
  {
    if id in s.reg.byID {
      var n: nat :| n <= |users| && AddedAll(s, id, users[..n], s');
      AddedAllKeeps(s, id, users[..n], s');
    }
  }

  lemma DeleteStepKeeps(s: State, id: string, s': State)
    requires Invariant(s) && DeleteStep(s, id, s')
    ensures Invariant(s')
  {
    if id in s.reg.byID {
      DeleteKeeps(s, id, s');
    } else {
      EmailsOfOne(s, id);
      FallKeeps(s, {id}, s');
    }
  }

  lemma CollectStepKeeps(s: State, rows: Option<seq<Row>>, now: int, s': State)
    requires Invariant(s) && CollectStep(s, rows, now, s')
    ensures Invariant(s')
  {
    if s.core.Some? {
      var mid :| Accounted(s, rows, mid) && EnforceDone(mid, now, s');
      AccountedKeeps(s, rows, mid);
      EnforceKeeps(mid, now, s');
    }
  }

  lemma StopKeeps(s: State)
    requires Invariant(s)
    ensures Invariant(s.(core := None))
  {
    SameUsersKeeps(s, s.(core := None));
  }

  /** Every operation keeps the invariant. */
  lemma StepKeeps(s: State, op: Op, s': State)
    requires Invariant(s) && Proper(s, op) && Step(s, op, s')
    ensures Invariant(s')
  {
    match op
    case CreateTenant(id, hash, quota, credit, expireAt, period) =>
      RegistryStepKeeps(s, T.Create(id, hash, quota, credit, expireAt, period), s');
    case SetQuota(id, quota, credit, expireAt) => RegistryStepKeeps(s, T.SetQuota(id, quota, credit, expireAt), s');
    case SetUsers(id, users) => SetStepKeeps(s, id, users, s');
    case AddUsers(id, users) => AddStepKeeps(s, id, users, s');
    case SuspendTenant(id, reason) => SuspendKeeps(s, id, reason, s');
    case ResumeTenant(id) => ResumeKeeps(s, id, s');
    case ResetTenant(id) => ResetKeeps(s, id, s');
    case DeleteTenant(id) => DeleteStepKeeps(s, id, s');
    case Collect(rows, now) => CollectStepKeeps(s, rows, now, s');
    case StartCore(started) => StartKeeps(s, started, s');
    case ApplyConfig(started) => ConfigKeeps(s, started, s');
    case Stop => StopKeeps(s);
    case ForceInbounds(tags) => ForceKeeps(s, tags);
  }

  lemma ForceKeeps(s: State, tags: seq<string>)
    requires Invariant(s)
    ensures Invariant(s.(forceInbounds := tags))
  {
    SameStandingKeepsExact(s, s.(forceInbounds := tags));
  }

  lemma StartKeeps(s: State, started: Option<Core>, s': State)
    requires Invariant(s) && Proper(s, StartCore(started)) && StartStep(s, started, s')
    ensures Invariant(s')
  {
    if s.core.None? && started.Some? {
      StartCoreReaddsNobody(s, started.value);
      SameUsersKeeps(s, s');
    }
  }

  // ---- every run ----------------------------------------------------------

  /** A node's start: tenants from the store, no users yet, no core. */
  ghost predicate Initial(s: State) {
    && T.Consistent(s.reg) && (forall id :: id in s.reg.byID ==> Dotless(id))
    && s.users == map[] && s.emailTo == map[] && s.creds == map[] && s.lastSeen == map[] && s.core == None
  }

  ghost predicate IsRun(ops: seq<Op>, states: seq<State>) {
    && |states| == |ops| + 1
    && Initial(states[0])
    && forall i :: 0 <= i < |ops| ==> Proper(states[i], ops[i]) && Step(states[i], ops[i], states[i + 1])
  }

  /**
   * After every completed operation of every run: emails and credentials are indexed under their own tenant, and each
   * inbound holds exactly the accounts of the active tenants' users it serves.
   */
  lemma {:induction false} RunsKeepInvariant(ops: seq<Op>, states: seq<State>, n: nat)
    requires IsRun(ops, states) && n < |states|
    ensures Invariant(states[n])
  {
    if n > 0 {
      RunsKeepInvariant(ops, states, n - 1);
      StepKeeps(states[n - 1], ops[n - 1], states[n - 1 + 1]);
    }
  }

  // ---- readings -----------------------------------------------------------

  lemma {:induction false} AddedAllKeepsReadings(s: State, id: string, users: seq<User>, s': State)
    requires AddedAll(s, id, users, s')
    ensures s'.lastSeen == s.lastSeen
    decreases |users|
  {
    if users != [] {
      var init, u := users[..|users| - 1], users[|users| - 1];
      assert AddedOneMore(s, id, init, u, s');
      var mid :| AddedAll(s, id, init, mid) && AddOne(mid, id, u, s');
      AddedAllKeepsReadings(s, id, init, mid);
    }
  }

  lemma AddStepKeepsReadings(s: State, id: string, users: seq<User>, s': State)
    requires AddStep(s, id, users, s')
    ensures s'.lastSeen == s.lastSeen && forall e :: e in s.emailTo ==> e in s'.emailTo
  {
    if id in s.reg.byID {
      var n: nat :| n <= |users| && AddedAll(s, id, users[..n], s');
      AddedAllKeepsReadings(s, id, users[..n], s');
      forall e | e in s.emailTo ensures e in s'.emailTo {
        AddedAllKeepsEmails(s, id, users[..n], s', e);
      }
    }
  }

  /** The total a step reads for an email, if it is a poll that sees it. */
  function Reading(s: State, op: Op, e: string): Option<nat> {
    if op.Collect? && s.core.Some? && op.rows.Some? then Lookup(Totals(op.rows.value), e) else None
  }

  lemma CollectRemembers(s: State, rows: Option<seq<Row>>, now: int, s': State, e: string)
    requires CollectStep(s, rows, now, s')
    ensures Lookup(s'.lastSeen, e) ==
            if Reading(s, Collect(rows, now), e).Some? then Reading(s, Collect(rows, now), e) else Lookup(s.lastSeen, e)
  {
  }

  /** Between polls a reading stays until its user is dropped. */
  lemma ReadingsMoveByPolls(s: State, op: Op, s': State, e: string)
    requires Inverse(s) && Step(s, op, s')
    ensures Lookup(s'.lastSeen, e) ==
            if Reading(s, op, e).Some? then Reading(s, op, e)
            else if e in s.emailTo && e !in s'.emailTo then None else Lookup(s.lastSeen, e)
  {
    match op
    case SetUsers(id, users) => SetStepReadings(s, id, users, s', e);
    case AddUsers(id, users) => AddStepKeepsReadings(s, id, users, s');
    case DeleteTenant(id) => DeleteStepReadings(s, id, s', e);
    case Collect(rows, now) => CollectRemembers(s, rows, now, s', e);
    case _ =>
  }

  lemma SetStepReadings(s: State, id: string, users: seq<User>, s': State, e: string)
    requires Inverse(s) && SetStep(s, id, users, s')
    ensures Lookup(s'.lastSeen, e) == if e in s.emailTo && e !in s'.emailTo then None else Lookup(s.lastSeen, e)
  {
    var set' := NewSet(s, id, users);
    if Acceptable(s, id, set') {
      assert e in Dropped(s, id, set') ==> Lookup(s.emailTo, e) == Some(id);
      assert Lookup(s'.emailTo, e) ==
             if e in set' then Some(id) else if e in Dropped(s, id, set') then None else Lookup(s.emailTo, e);
    }
  }

  lemma DeleteStepReadings(s: State, id: string, s': State, e: string)
    requires Inverse(s) && DeleteStep(s, id, s')
    ensures Lookup(s'.lastSeen, e) == if e in s.emailTo && e !in s'.emailTo then None else Lookup(s.lastSeen, e)
  {
    if id in s.reg.byID {
      assert e in s.Users(id) ==> Lookup(s.emailTo, e) == Some(id);
      assert Lookup(s'.emailTo, e) == if e in s.Users(id) then None else Lookup(s.emailTo, e);
    }
  }

  lemma {:induction false} AddedAllKeepsEmails(s: State, id: string, users: seq<User>, s': State, e: string)
    requires AddedAll(s, id, users, s')
    ensures e in s.emailTo ==> e in s'.emailTo
    decreases |users|
  {
    if users != [] {
      var init, u := users[..|users| - 1], users[|users| - 1];
      assert AddedOneMore(s, id, init, u, s');
      var mid :| AddedAll(s, id, init, mid) && AddOne(mid, id, u, s');
      AddedAllKeepsEmails(s, id, init, mid, e);
      assert Lookup(s'.emailTo, e) == if e == BuildUser(mid, id, u).email then Some(id) else Lookup(mid.emailTo, e);
    }
  }
}
