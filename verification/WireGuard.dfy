/** The WireGuard backend object (backend/wireguard): each operation is one lock-held step. */
module WireGuards {
  import opened Base
  import opened Keys
  import opened Networks
  import opened Common
  import opened DesiredPeers
  import opened PeerStores
  import opened Devices
  import opened SyncDiffs
  import opened Reconcile
  import opened Snapshots
  import opened Spellings
  import opened WireGuardRuns
  import opened Trackers

  datatype Lifecycle = Stopped | Starting | Running

  /** Some kernel call is needed to bring the kernel to the target. */
  ghost predicate NeedsKernel(existing: Peers, target: Peers) {
    ConfigTexts(existing, target) != {} || RemoveTexts(existing, target) != {}
  }

  lemma NeedsKernelExactly(existing: Peers, desired: map<string, DesiredPeer>, diff: SyncDiff)
    requires IsDiff(existing, desired, diff)
    ensures diff.peerConfigs != [] <==> NeedsKernel(existing, Targets(desired))
  {
    var upserted, configured :| DiffInOrder(existing, Targets(desired), diff, upserted, configured);
    EmptyList(configured);
    EmptyList(diff.removeKeys);
  }

  /** Why a partial sync is turned down. */
  ghost predicate PartialFails(iface: Interface, s: State, users: seq<User>, accepted: bool) {
    || Refused(iface, users)
    || exists desired :: Wants(iface, users, desired) &&
         (!OwnersAgree(s.peers, Touched(users), desired) ||
          (NeedsKernel(TouchedPart(s.peers, Touched(users)), Targets(desired)) && !(s.ready && accepted)))
  }

  lemma NormalizedIs(users: seq<User>, normalized: seq<User>)
    requires forall u :: u in normalized <==> LastOfItsEmail(users, u)
    ensures Elements(normalized) == Normalized(users)
  {
  }

  /** filterUpsertsByAppliedKeys, without its shortcut. */
  function Kept(upserts: seq<PeerInfo>, appliedKeys: set<string>): seq<PeerInfo> {
    if upserts == [] then []
    else
      var last := upserts[|upserts| - 1];
      Kept(upserts[..|upserts| - 1], appliedKeys) + if last.publicKey in appliedKeys then [last] else []
  }

  lemma {:induction false} KeepAll(upserts: seq<PeerInfo>, appliedKeys: set<string>)
    requires forall i :: 0 <= i < |upserts| ==> upserts[i].publicKey in appliedKeys
    ensures Kept(upserts, appliedKeys) == upserts
  {
    if upserts != [] {
      KeepAll(upserts[..|upserts| - 1], appliedKeys);
    }
  }

  lemma {:induction false} DistinctKeysCounted(upserts: seq<PeerInfo>)
    requires forall i, j :: 0 <= i < j < |upserts| ==> upserts[i].publicKey != upserts[j].publicKey
    ensures |set u | u in upserts :: u.publicKey| == |upserts|
  {
    var keys := set u | u in upserts :: u.publicKey;
    if upserts == [] {
      assert keys == {};
    } else {
      var init, last := upserts[..|upserts| - 1], upserts[|upserts| - 1];
      assert upserts == init + [last];
      DistinctKeysCounted(init);
      var before := set u | u in init :: u.publicKey;
      assert keys == before + {last.publicKey};
      assert last.publicKey !in before;
    }
  }

  lemma FullSubset(a: set<string>, b: set<string>)
    requires a <= b && |a| == |b|
    ensures a == b
  {
    assert |b - a| == |b| - |a|;
  }

  /**
   * The equal-length shortcut of the startup filter returns what the filter would, for upserts with distinct keys and
   * applied keys taken from them.
   */
  lemma ShortcutIsTheFilter(upserts: seq<PeerInfo>, appliedKeys: set<string>)
    requires forall i, j :: 0 <= i < j < |upserts| ==> upserts[i].publicKey != upserts[j].publicKey
    requires appliedKeys <= set u | u in upserts :: u.publicKey
    requires |appliedKeys| == |upserts|
    ensures Kept(upserts, appliedKeys) == upserts
  {
    DistinctKeysCounted(upserts);
    FullSubset(appliedKeys, set u | u in upserts :: u.publicKey);
    KeepAll(upserts, appliedKeys);
  }

  method FilterUpsertsByAppliedKeys(upserts: seq<PeerInfo>, appliedKeys: set<string>) returns (filtered: seq<PeerInfo>)
    ensures filtered == if |appliedKeys| == |upserts| then upserts else Kept(upserts, appliedKeys)
  {
    if |appliedKeys| == |upserts| {
      return upserts;
    }
    filtered := [];
    for i := 0 to |upserts|
      invariant filtered == Kept(upserts[..i], appliedKeys)
    {
      assert upserts[..i + 1][..i] == upserts[..i];
      if upserts[i].publicKey in appliedKeys {
        filtered := filtered + [upserts[i]];
      }
    }
    assert upserts[..|upserts|] == upserts;
  }

  class WireGuard {
    const iface: Interface
    const peerStore: PeerStore
    const statsTracker: Tracker
    var state: Lifecycle
    var hasManager: bool
    var device: Device

    ghost predicate Valid()
      reads this, peerStore, statsTracker
    {
      peerStore.Valid() && statsTracker.Valid() && SoundStore(peerStore.peers)
    }

    /** An object before its interface exists. */
    constructor (iface: Interface)
      ensures Valid() && fresh(peerStore) && fresh(statsTracker) && this.iface == iface
      ensures state == Starting && !hasManager && peerStore.peers == map[] && peerStore.emailToKey == map[]
    {
      this.iface := iface;
      peerStore := new PeerStore();
      statsTracker := new Tracker();
      state, hasManager, device := Starting, false, NO_PEERS;
    }

    ghost function View(): State
      reads this, peerStore
    {
      State(peerStore.peers, device, state.Running? && hasManager)
    }

    /** normalizeUsers and collectDesiredPeers, the opening of every sync. */
    method Collect(users: seq<User>) returns (touched: seq<string>, r: Result<map<string, DesiredPeer>, string>)
      ensures Elements(touched) == Touched(users)
      ensures r.Err? <==> Refused(iface, users)
      ensures r.Ok? ==> Wants(iface, users, r.value)
    {
      var normalized := NormalizeUsers(users);
      NormalizedIs(users, normalized);
      touched := seq(|normalized|, i requires 0 <= i < |normalized| => normalized[i].email);
      assert forall i :: 0 <= i < |normalized| ==> touched[i] == normalized[i].email && normalized[i] in normalized;
      forall e | e in Touched(users) ensures e in Elements(touched) {
        var u :| u in Normalized(users) && u.email == e;
        var i :| 0 <= i < |normalized| && normalized[i] == u;
        assert touched[i] == e;
      }
      r := CollectDesiredPeers(iface, normalized);
    }

    /** buildExistingPeersSubsetForTouched */
    method ExistingSubset(touched: seq<string>) returns (subset: Peers)
      requires Valid()
      ensures subset == TouchedPart(peerStore.peers, Elements(touched))
    {
      subset := map[];
      for i := 0 to |touched|
        invariant subset == TouchedPart(peerStore.peers, Elements(touched[..i]))
      {
        var peer := peerStore.GetByEmail(touched[i]);
        SubsetGrows(peerStore.peers, touched, i);
        if peer.Some? {
          subset := subset[peer.value.publicKey := peer.value];
        }
      }
      assert touched[..|touched|] == touched;
    }

    /** The ownership check: a desired key stored for an untouched email refuses the request. */
    method OwnersAllow(touched: set<string>, desired: map<string, DesiredPeer>) returns (ok: bool)
      ensures ok <==> OwnersAgree(peerStore.peers, touched, desired)
    {
      var keys := Enumerate(desired.Keys);
      for i := 0 to |keys|
        invariant forall j :: 0 <= j < i ==> OwnerAllows(peerStore.peers, touched, desired, keys[j])
      {
        var key := keys[i];
        assert key in Elements(keys);
        if !OwnerAllows(peerStore.peers, touched, desired, key) {
          return false;
        }
      }
      ok := true;
      forall s | s in desired ensures OwnerAllows(peerStore.peers, touched, desired, s) {
        assert s in Elements(keys);
        var j :| 0 <= j < |keys| && keys[j] == s;
      }
    }

    /** RemoveStats for each key that left the store. */
    method Retire(removed: seq<string>)
      requires statsTracker.Valid()
      modifies statsTracker
      ensures statsTracker.Valid()
      ensures statsTracker.stats == AfterRemove(old(statsTracker.stats), Elements(removed))
    {
      for i := 0 to |removed|
        invariant statsTracker.Valid()
        invariant statsTracker.stats == AfterRemove(old(statsTracker.stats), Elements(removed[..i]))
      {
        assert Elements(removed[..i + 1]) == Elements(removed[..i]) + {removed[i]};
        statsTracker.RemoveStats(removed[i]);
      }
      assert removed[..|removed|] == removed;
    }

    /** The part of syncUsersPartialReconcile that only reads: it fails, or settles what to send and commit. */
    method PlanPartial(users: seq<User>, accepted: bool) returns (r: Result<Plan, string>)
      requires Valid()
      ensures r.Err? <==> PartialFails(iface, View(), users, accepted)
      ensures r.Ok? ==> Planned(iface, View(), users, r.value.desired, r.value.diff)
    {
      var touched, collected := Collect(users);
      if collected.Err? {
        return Err(collected.error);
      }
      var desired := collected.value;
      OnlyOneReason(iface, View(), users, accepted, desired);
      var existing := ExistingSubset(touched);
      var allowed := OwnersAllow(Elements(touched), desired);
      if !allowed {
        return Err("wireguard public key is already assigned");
      }
      var diff := BuildSyncDiff(existing, desired);
      NeedsKernelExactly(existing, desired, diff);
      if diff.peerConfigs != [] {
        if !(state.Running? && hasManager) {
          return Err("wireguard not started");
        }
        if !accepted {
          return Err("failed to apply peer changes");
        }
      }
      r := Ok(Plan(desired, diff));
    }

    /** The kernel call, the store commit and the retiring of stats. */
    method Commit(diff: SyncDiff)
      requires peerStore.Valid() && statsTracker.Valid()
      modifies this`device, peerStore, statsTracker
      ensures peerStore.Valid() && statsTracker.Valid()
      ensures View() == Committed(old(View()), diff)
      ensures statsTracker.stats == AfterRemove(old(statsTracker.stats),
                                                old(peerStore.peers).Keys * Elements(diff.removeKeys))
    {
      AllPresentIsPresent(diff.upsertPeers);
      device := ConfigureAll(device, diff.peerConfigs);
      var removed := peerStore.ApplyChanges(diff.removeKeys, AllPresent(diff.upsertPeers));
      Retire(removed);
    }

    /**
     * syncUsersPartialReconcile. On error nothing changes; otherwise the diff of the touched part has been sent and
     * committed, and the tracker has retired the removed keys.
     */
    method SyncUsersPartialReconcile(users: seq<User>, accepted: bool) returns (err: Option<string>)
      requires Valid()
      modifies this`device, peerStore, statsTracker
      ensures Valid()
      ensures err.Some? <==> PartialFails(iface, old(View()), users, accepted)
      ensures err.Some? ==> View() == old(View()) && statsTracker.stats == old(statsTracker.stats)
      ensures err.None? ==> exists desired, diff ::
                PartialDone(iface, old(View()), users, desired, diff, View()) &&
                statsTracker.stats == AfterRemove(old(statsTracker.stats), RemovedBy(old(View()), diff))
    {
      var planned := PlanPartial(users, accepted);
      if planned.Err? {
        return Some(planned.error);
      }
      ghost var before, desired, diff := View(), planned.value.desired, planned.value.diff;
      Commit(planned.value.diff);
      PartialKeepsStoreSound(iface, before, users, desired, diff, View());
      assert PartialDone(iface, before, users, desired, diff, View());
      err := None;
    }

    /** The part of syncUsersFull that only reads. Without a plan nothing needs to change. */
    method PlanFull(users: seq<User>, accepted: bool) returns (r: Result<Option<Plan>, string>)
      requires Valid()
      ensures r.Err? <==> FullFails(iface, View(), users, accepted)
      ensures r.Ok? ==> exists desired, diff ::
                && Wants(iface, users, desired) && IsDiff(peerStore.peers, desired, diff)
                && (diff.changed ==> View().ready)
                && r.value == if diff.changed then Some(Plan(desired, diff)) else None
    {
      var touched, collected := Collect(users);
      if collected.Err? {
        return Err(collected.error);
      }
      var desired := collected.value;
      OnlyOneChange(iface, View(), users, accepted, desired);
      var diff := BuildSyncDiff(peerStore.peers, desired);
      ChangedExactly(peerStore.peers, desired, diff);
      if !diff.changed {
        return Ok(None);
      }
      if !(state.Running? && hasManager) {
        return Err("wireguard not started");
      }
      if !accepted {
        return Err("failed to apply full peer snapshot");
      }
      r := Ok(Some(Plan(desired, diff)));
    }

    /** The replacing kernel call, the new store and the retiring of stats. */
    method Swap(list: seq<PeerInfo>, configs: seq<PeerConfig>)
      requires statsTracker.Valid() && state.Running? && hasManager
      modifies this`device, peerStore, statsTracker
      ensures statsTracker.Valid() && Holds(View(), list, configs) && (Independent(list) ==> peerStore.Valid())
      ensures statsTracker.stats == AfterRemove(old(statsTracker.stats),
                                                old(peerStore.peers).Keys - peerStore.peers.Keys)
    {
      AllPresentIsPresent(list);
      device := ConfigureAll(NO_PEERS, configs);
      var removed := peerStore.ReplaceAll(AllPresent(list));
      Retire(removed);
    }

    /** The whole of a full sync that changes anything. */
    method ReplaceEverything(desired: map<string, DesiredPeer>)
      requires statsTracker.Valid() && WellCollected(desired) && state.Running? && hasManager
      modifies this`device, peerStore, statsTracker
      ensures statsTracker.Valid() && Replaced(desired, View())
      ensures statsTracker.stats == AfterRemove(old(statsTracker.stats),
                                                old(peerStore.peers).Keys - peerStore.peers.Keys)
      ensures OneTextAKey(desired) ==> peerStore.Valid()
    {
      var configs, appliedKeys := BuildTargetPeerConfigs(Targets(desired));
      DesiredAreApplied(desired, appliedKeys, configs);
      var list := PickAll(Targets(desired), appliedKeys);
      ListIsIndependent(desired, list);
      Swap(list, configs);
      ReplacedBy(desired, View(), list, configs);
    }

    /** syncUsersFull. On error nothing changes; a change replaces kernel and store and retires the keys that left. */
    method SyncUsersFull(users: seq<User>, accepted: bool) returns (err: Option<string>)
      requires Valid()
      modifies this`device, peerStore, statsTracker
      ensures statsTracker.Valid() && (Unambiguous(iface, users) ==> Valid())
      ensures err.Some? <==> FullFails(iface, old(View()), users, accepted)
      ensures err.Some? ==> View() == old(View()) && statsTracker.stats == old(statsTracker.stats)
      ensures err.None? ==> exists desired, diff :: FullDone(iface, old(View()), users, desired, diff, View())
      ensures statsTracker.stats == AfterRemove(old(statsTracker.stats),
                                                old(peerStore.peers).Keys - peerStore.peers.Keys)
    {
      NobodyRetired(statsTracker.stats, peerStore.peers);
      var planned := PlanFull(users, accepted);
      if planned.Err? {
        return Some(planned.error);
      }
      ghost var before := View();
      ghost var desired, diff :|
        && Wants(iface, users, desired) && IsDiff(peerStore.peers, desired, diff)
        && (diff.changed ==> before.ready)
        && planned.value == if diff.changed then Some(Plan(desired, diff)) else None;
      if planned.value.Some? {
        ReplaceEverything(planned.value.value.desired);
      }
      assert FullDone(iface, before, users, desired, diff, View());
      if Unambiguous(iface, users) {
        FullStep(iface, before, users, desired, diff, View());
      }
      err := None;
    }

    /** restartLocked: a sound store never meets the "no allowed IPs" error. */
    method RestartLocked(accepted: bool) returns (err: Option<string>)
      modifies this`device
      ensures err.Some? <==>
              !(old(View()).ready && accepted) ||
              exists k :: k in peerStore.peers && peerStore.peers[k].allowedIPs == []
      ensures SoundStore(peerStore.peers) ==> (err.Some? <==> !(old(View()).ready && accepted))
      ensures err.Some? ==> View() == old(View())
      ensures err.None? ==> RestartDone(old(View()), View())
    {
      var built := BuildPeerConfigsForRestart(peerStore.peers);
      if built.Err? {
        return Some(built.error);
      }
      if !(state.Running? && hasManager) {
        return Some("wireguard not started");
      }
      if !accepted {
        return Some("failed to reconfigure interface during restart");
      }
      device := ConfigureAll(NO_PEERS, built.value);
      err := None;
    }

    /** The first snapshot, the upserts into the store, and running. */
    method Install(list: seq<PeerInfo>, configs: seq<PeerConfig>)
      requires peerStore.peers == map[] && peerStore.emailToKey == map[]
      modifies this, peerStore
      ensures Holds(View(), list, configs) && (Independent(list) ==> peerStore.Valid())
    {
      AllPresentIsPresent(list);
      device, hasManager := ConfigureAll(NO_PEERS, configs), true;
      peerStore.Init(AllPresent(list));
      state := Running;
    }

    /** The end of newWithManagerFactory: the filtered upserts go into the store. */
    method Launch(desired: map<string, DesiredPeer>, diff: SyncDiff, configs: seq<PeerConfig>, appliedKeys: set<string>)
      requires Prepared(desired, diff, configs, appliedKeys)
      requires peerStore.peers == map[] && peerStore.emailToKey == map[]
      modifies this, peerStore
      ensures Replaced(desired, View()) && (OneTextAKey(desired) ==> peerStore.Valid())
    {
      var kept := FilterUpsertsByAppliedKeys(diff.upsertPeers, appliedKeys);
      ListIsIndependent(desired, kept);
      Install(kept, configs);
      ReplacedBy(desired, View(), kept, configs);
    }

    /** The part of startup before the interface exists. */
    method PlanStart(users: seq<User>)
      returns (r: Result<Plan, string>, configs: seq<PeerConfig>, appliedKeys: set<string>)
      requires peerStore.peers == map[]
      ensures r.Err? <==> Refused(iface, users)
      ensures r.Ok? ==> Wants(iface, users, r.value.desired)
      ensures r.Ok? ==> Prepared(r.value.desired, r.value.diff, configs, appliedKeys)
    {
      var touched, collected := Collect(users);
      if collected.Err? {
        return Err(collected.error), [], {};
      }
      var desired := collected.value;
      var diff := BuildSyncDiff(peerStore.peers, desired);
      TargetsAreTargets(peerStore.peers, desired, diff);
      configs, appliedKeys := BuildTargetPeerConfigs(diff.targetPeers);
      DesiredAreApplied(desired, appliedKeys, configs);
      FreshDiff(desired, diff, appliedKeys);
      r := Ok(Plan(desired, diff));
    }

    /** The startup path of newWithManagerFactory; on error the object is dropped. */
    method Start(users: seq<User>, accepted: bool) returns (err: Option<string>)
      requires Valid() && state == Starting && peerStore.peers == map[] && peerStore.emailToKey == map[]
      modifies this, peerStore
      ensures err.Some? <==> Refused(iface, users) || !accepted
      ensures err.None? ==> Started(iface, users, View()) && (Unambiguous(iface, users) ==> Valid())
    {
      var planned, configs, appliedKeys := PlanStart(users);
      if planned.Err? {
        return Some(planned.error);
      }
      if !accepted {
        return Some("failed to initialize interface");
      }
      Launch(planned.value.desired, planned.value.diff, configs, appliedKeys);
      StartedBy(iface, users, planned.value.desired, View());
      err := None;
    }
  }

  /** The first snapshot, and a diff that upserts everybody desired. */
  ghost predicate Prepared(desired: map<string, DesiredPeer>, diff: SyncDiff, configs: seq<PeerConfig>,
                           appliedKeys: set<string>)
  {
    && WellCollected(desired) && IsSnapshot(Targets(desired), configs)
    && ListsPeers(Targets(desired), diff.upsertPeers) && |appliedKeys| == |diff.upsertPeers|
  }

  lemma StartedBy(iface: Interface, users: seq<User>, desired: map<string, DesiredPeer>, s': State)
    requires Wants(iface, users, desired) && Replaced(desired, s')
    ensures Started(iface, users, s') && (Unambiguous(iface, users) ==> OneTextAKey(desired) && SoundStore(s'.peers))
  {
    if Unambiguous(iface, users) {
      ReplacedIsGood(desired, s');
    }
  }

  lemma ReplacedBy(desired: map<string, DesiredPeer>, s': State, list: seq<PeerInfo>, configs: seq<PeerConfig>)
    requires ListsPeers(Targets(desired), list) && IsSnapshot(Targets(desired), configs) && Holds(s', list, configs)
    ensures Replaced(desired, s')
  {
    assert ReplacedWith(desired, s', list, configs);
  }

  lemma TargetsAreTargets(existing: Peers, desired: map<string, DesiredPeer>, diff: SyncDiff)
    requires WellCollected(desired) && IsDiff(existing, desired, diff)
    ensures diff.targetPeers == Targets(desired)
  {
  }

  /** Desired peers all have networks. */
  lemma TargetsHaveNetworks(desired: map<string, DesiredPeer>)
    requires WellCollected(desired)
    ensures forall k :: k in Targets(desired) ==> Targets(desired)[k].allowedIPs != []
  {
  }

  /** Peers that all have networks are all applied. */
  lemma EveryoneApplied(target: Peers, appliedKeys: set<string>, configs: seq<PeerConfig>)
    requires forall k :: k in target ==> target[k].allowedIPs != []
    requires appliedKeys == set k | k in target && target[k].allowedIPs != []
    requires IsSnapshot(map k | k in appliedKeys :: target[k], configs)
    ensures appliedKeys == target.Keys && IsSnapshot(target, configs)
  {
    assert appliedKeys == target.Keys;
    assert (map k | k in appliedKeys :: target[k]) == target;
  }

  lemma DesiredAreApplied(desired: map<string, DesiredPeer>, appliedKeys: set<string>, configs: seq<PeerConfig>)
    requires WellCollected(desired)
    requires appliedKeys == set k | k in Targets(desired) && Targets(desired)[k].allowedIPs != []
    requires IsSnapshot(map k | k in appliedKeys :: Targets(desired)[k], configs)
    ensures appliedKeys == Targets(desired).Keys && IsSnapshot(Targets(desired), configs)
  {
    TargetsHaveNetworks(desired);
    EveryoneApplied(Targets(desired), appliedKeys, configs);
  }

  lemma ListIsIndependent(desired: map<string, DesiredPeer>, list: seq<PeerInfo>)
    requires WellCollected(desired) && ListsPeers(Targets(desired), list)
    ensures OneTextAKey(desired) ==> Independent(list)
  {
    if OneTextAKey(desired) {
      ReplacedPeers(desired, list);
    }
  }

  /** Against an empty store every target is upserted, so the startup filter always takes its shortcut. */
  lemma FreshDiff(desired: map<string, DesiredPeer>, diff: SyncDiff, appliedKeys: set<string>)
    requires WellCollected(desired) && IsDiff(map[], desired, diff) && appliedKeys == Targets(desired).Keys
    ensures ListsPeers(Targets(desired), diff.upsertPeers) && |appliedKeys| == |diff.upsertPeers|
  {
    var upserted, configured :| DiffInOrder(map[], Targets(desired), diff, upserted, configured);
    EveryoneUpserted(Targets(desired));
    EveryoneListed(Targets(desired), upserted, diff.upsertPeers);
  }

  lemma EveryoneUpserted(target: Peers)
    requires forall k :: k in target ==> target[k].allowedIPs != []
    ensures UpsertTexts(map[], target) == target.Keys
  {
  }

  lemma EveryoneListed(target: Peers, texts: seq<string>, list: seq<PeerInfo>)
    requires Lists(texts, target.Keys) && PeersOf(target, texts, list)
    ensures ListsPeers(target, list) && |target.Keys| == |list|
  {
    DistinctCounted(texts);
  }

  lemma {:induction false} DistinctCounted(texts: seq<string>)
    requires NoDuplicates(texts)
    ensures |Elements(texts)| == |texts|
  {
    if texts != [] {
      var init, last := texts[..|texts| - 1], texts[|texts| - 1];
      DistinctCounted(init);
      assert Elements(texts) == Elements(init) + {last};
      assert last !in Elements(init);
    }
  }

  /** The target peers that were applied, in any order. */
  method PickAll(target: Peers, appliedKeys: set<string>) returns (list: seq<PeerInfo>)
    requires appliedKeys == target.Keys
    ensures ListsPeers(target, list)
  {
    var texts := Enumerate(appliedKeys);
    assert forall i :: 0 <= i < |texts| ==> texts[i] in Elements(texts);
    list := seq(|texts|, i requires 0 <= i < |texts| => target[texts[i]]);
    assert PeersOf(target, texts, list);
  }

  /** Why a full sync is turned down. */
  ghost predicate FullFails(iface: Interface, s: State, users: seq<User>, accepted: bool) {
    || Refused(iface, users)
    || (exists desired :: Wants(iface, users, desired) && Changes(s.peers, Targets(desired)) && !(s.ready && accepted))
  }

  ghost predicate Changes(existing: Peers, target: Peers) {
    UpsertTexts(existing, target) != {} || RemoveTexts(existing, target) != {}
  }

  lemma ChangedExactly(existing: Peers, desired: map<string, DesiredPeer>, diff: SyncDiff)
    requires IsDiff(existing, desired, diff)
    ensures diff.changed <==> Changes(existing, Targets(desired))
  {
    var upserted, configured :| DiffInOrder(existing, Targets(desired), diff, upserted, configured);
    EmptyList(upserted);
    EmptyList(diff.removeKeys);
  }

  lemma OnlyOneChange(iface: Interface, s: State, users: seq<User>, accepted: bool, desired: map<string, DesiredPeer>)
    requires !Refused(iface, users) && Wants(iface, users, desired)
    ensures FullFails(iface, s, users, accepted) <==> Changes(s.peers, Targets(desired)) && !(s.ready && accepted)
  {
    forall other | Wants(iface, users, other) ensures other == desired {
      WantsOnce(iface, users, other, desired);
    }
  }

  lemma NobodyRetired(stats: Stats, peers: Peers)
    ensures AfterRemove(stats, peers.Keys - peers.Keys) == stats
  {
  }

  datatype Plan = Plan(desired: map<string, DesiredPeer>, diff: SyncDiff)

  /** The stored keys a diff removes. */
  ghost function RemovedBy(s: State, diff: SyncDiff): set<string> {
    s.peers.Keys * Elements(diff.removeKeys)
  }

  /** A list without nil entries. */
  function AllPresent(peers: seq<PeerInfo>): seq<Option<PeerInfo>> {
    seq(|peers|, i requires 0 <= i < |peers| => Some(peers[i]))
  }

  lemma {:induction false} AllPresentIsPresent(peers: seq<PeerInfo>)
    ensures Present(AllPresent(peers)) == peers
  {
    if peers != [] {
      AllPresentIsPresent(peers[..|peers| - 1]);
      assert AllPresent(peers)[..|peers| - 1] == AllPresent(peers[..|peers| - 1]);
    }
  }

  /** The request determines what it wants, so the reasons to fail are about that one map. */
  lemma OnlyOneReason(iface: Interface, s: State, users: seq<User>, accepted: bool, desired: map<string, DesiredPeer>)
    requires !Refused(iface, users) && Wants(iface, users, desired)
    ensures PartialFails(iface, s, users, accepted) <==>
              !OwnersAgree(s.peers, Touched(users), desired) ||
              (NeedsKernel(TouchedPart(s.peers, Touched(users)), Targets(desired)) && !(s.ready && accepted))
  {
    forall other | Wants(iface, users, other) ensures other == desired {
      WantsOnce(iface, users, other, desired);
    }
  }

  lemma SubsetGrows(peers: Peers, touched: seq<string>, i: nat)
    requires i < |touched| && Filed(peers) && DistinctOwners(peers)
    ensures forall k :: k in peers && peers[k].email == touched[i] ==>
              TouchedPart(peers, Elements(touched[..i + 1])) ==
              TouchedPart(peers, Elements(touched[..i]))[k := peers[k]]
    ensures (forall k :: k in peers ==> peers[k].email != touched[i]) ==>
              TouchedPart(peers, Elements(touched[..i + 1])) == TouchedPart(peers, Elements(touched[..i]))
  {
  }
}
