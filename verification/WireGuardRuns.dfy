/** The WireGuard backend as a state machine: startup, partial sync, full sync and restart, over every run. */
module WireGuardRuns {
  import opened Base
  import opened Keys
  import opened Networks
  import opened Common
  import opened DesiredPeers
  import opened PeerStores
  import opened Devices
  import opened SyncDiffs
  import opened Reconcile
  import opened Snapshots
  import opened Spellings
  import opened Aliases

  /** The store, the kernel, and whether the backend is running with a manager. */
  datatype State = State(peers: Peers, device: Device, ready: bool)

  // ---- what a request asks for --------------------------------------------

  ghost function Normalized(users: seq<User>): set<User> {
    set u | u in users && LastOfItsEmail(users, u)
  }

  ghost function Touched(users: seq<User>): set<string> {
    set u | u in Normalized(users) :: u.email
  }

  /** Two of the request's users cannot both be served. */
  ghost predicate Refused(iface: Interface, users: seq<User>) {
    Conflicted(Asks(iface, Normalized(users)))
  }

  ghost predicate Wants(iface: Interface, users: seq<User>, desired: map<string, DesiredPeer>) {
    Collects(Asks(iface, Normalized(users)), desired) && WellCollected(desired)
  }

  /** Every key text of the request that parses is the text its key prints as. */
  ghost predicate CanonicalRequest(users: seq<User>) {
    forall u :: u in users ==> ParseKey(WireguardOf(u).publicKey) in {None, Some(WireguardOf(u).publicKey)}
  }

  lemma WantedEmailsAreTouched(iface: Interface, users: seq<User>, desired: map<string, DesiredPeer>, s: string)
    requires Wants(iface, users, desired) && s in desired
    ensures desired[s].email in Touched(users)
    ensures CanonicalRequest(users) ==> desired[s].parsedKey == s
  {
    var a :| a in Asks(iface, Normalized(users)) && a.peer == Some(desired[s]) && desired[s].publicKey == s;
    var u :| u in Normalized(users) && AskOf(iface, u) == a;
    AskIsSound(iface, u);
    assert u in users;
  }

  /** A request that spells every key as the store does is never ambiguous. */
  lemma CanonicalRequestsAreClear(iface: Interface, users: seq<User>, desired: map<string, DesiredPeer>, peers: Peers)
    requires Wants(iface, users, desired) && CanonicalRequest(users)
    ensures OneTextAKey(desired) && NoStoredAlias(peers, desired)
  {
    forall s | s in desired ensures desired[s].parsedKey == s {
      WantedEmailsAreTouched(iface, users, desired, s);
    }
  }

  // ---- the steps ----------------------------------------------------------

  /** No desired key text is stored for an email the request does not touch. */
  ghost predicate OwnersAgree(peers: Peers, touched: set<string>, desired: map<string, DesiredPeer>) {
    forall s :: s in desired ==> OwnerAllows(peers, touched, desired, s)
  }

  predicate OwnerAllows(peers: Peers, touched: set<string>, desired: map<string, DesiredPeer>, s: string) {
    s in desired && s in peers && peers[s].email != desired[s].email ==> peers[s].email in touched
  }

  /** A partial sync that nothing stops: what it wants, and the diff against the touched part of the store. */
  ghost predicate Planned(iface: Interface, s: State, users: seq<User>, desired: map<string, DesiredPeer>,
                          diff: SyncDiff) {
    && Wants(iface, users, desired) && OwnersAgree(s.peers, Touched(users), desired)
    && IsDiff(TouchedPart(s.peers, Touched(users)), desired, diff)
    && (diff.peerConfigs != [] ==> s.ready)
  }

  /** The diff sent to the kernel and committed to the store. */
  ghost function Committed(s: State, diff: SyncDiff): State {
    State(UpsertedAll(s.peers - Elements(diff.removeKeys), diff.upsertPeers), ConfigureAll(s.device, diff.peerConfigs),
          s.ready)
  }

  /** A partial sync that went through. */
  ghost predicate PartialDone(iface: Interface, s: State, users: seq<User>, desired: map<string, DesiredPeer>,
                              diff: SyncDiff, s': State) {
    Planned(iface, s, users, desired, diff) && s' == Committed(s, diff)
  }

  ghost predicate PartialSync(iface: Interface, s: State, users: seq<User>, s': State) {
    s' == s || exists desired, diff :: PartialDone(iface, s, users, desired, diff, s')
  }

  /** A full sync that went through: nothing when nothing changed, otherwise the kernel and the store are replaced. */
  ghost predicate FullDone(iface: Interface, s: State, users: seq<User>, desired: map<string, DesiredPeer>,
                           diff: SyncDiff, s': State) {
    && Wants(iface, users, desired)
    && IsDiff(s.peers, desired, diff)
    && if !diff.changed then s' == s
       else s.ready && Replaced(desired, s')
  }

  /** The peers of a map, once each and in any order. */
  ghost predicate ListsPeers(target: Peers, list: seq<PeerInfo>) {
    exists texts :: Lists(texts, target.Keys) && PeersOf(target, texts, list)
  }

  /** The store holds the listed peers, and the kernel the snapshot sent. */
  ghost predicate Holds(s': State, list: seq<PeerInfo>, cs: seq<PeerConfig>) {
    s'.ready && s'.peers == ByKey(list) && s'.device == ConfigureAll(NO_PEERS, cs)
  }

  ghost predicate ReplacedWith(desired: map<string, DesiredPeer>, s': State, list: seq<PeerInfo>, cs: seq<PeerConfig>) {
    ListsPeers(Targets(desired), list) && IsSnapshot(Targets(desired), cs) && Holds(s', list, cs)
  }

  /** Kernel and store now hold the desired peers and nothing else. */
  ghost predicate Replaced(desired: map<string, DesiredPeer>, s': State) {
    exists list, cs :: ReplacedWith(desired, s', list, cs)
  }

  ghost predicate FullSync(iface: Interface, s: State, users: seq<User>, s': State) {
    s' == s || exists desired, diff :: FullDone(iface, s, users, desired, diff, s')
  }

  ghost predicate Started(iface: Interface, users: seq<User>, s': State) {
    exists desired :: Wants(iface, users, desired) && Replaced(desired, s')
  }

  /** A restart that went through: the stored peers are sent as a snapshot. */
  ghost predicate RestartDone(s: State, s': State) {
    && s.ready
    && exists cs :: IsSnapshot(s.peers, cs) && s' == s.(device := ConfigureAll(NO_PEERS, cs))
  }

  datatype Op = Partial(users: seq<User>) | Full(users: seq<User>) | Restart

  /** A step that fails changes nothing. */
  ghost predicate Step(iface: Interface, s: State, op: Op, s': State) {
    match op
    case Partial(users) => PartialSync(iface, s, users, s')
    case Full(users) => FullSync(iface, s, users, s')
    case Restart => s' == s || RestartDone(s, s')
  }

  // ---- single steps -------------------------------------------------------

  ghost predicate Good(s: State) {
    SoundStore(s.peers) && Agree(s.peers, s.device)
  }

  lemma {:induction false} UpsertedKeepOwners(peers: Peers, ups: seq<PeerInfo>)
    requires Filed(peers) && DistinctOwners(peers)
    ensures Filed(UpsertedAll(peers, ups)) && DistinctOwners(UpsertedAll(peers, ups))
    ensures forall k :: k in UpsertedAll(peers, ups) ==>
              UpsertedAll(peers, ups)[k] in ups || (k in peers && UpsertedAll(peers, ups)[k] == peers[k])
  {
    if ups != [] {
      UpsertedKeepOwners(peers, ups[..|ups| - 1]);
    }
  }

  lemma UpsertsArePrinted(existing: Peers, desired: map<string, DesiredPeer>, diff: SyncDiff, u: PeerInfo)
    requires WellCollected(desired) && IsDiff(existing, desired, diff) && u in diff.upsertPeers
    ensures ParseKey(u.publicKey) == Some(u.publicKey) && u.allowedIPs != []
  {
    var upserted, configured :| DiffInOrder(existing, Targets(desired), diff, upserted, configured);
    var i :| 0 <= i < |diff.upsertPeers| && diff.upsertPeers[i] == u;
    assert upserted[i] in desired && u == TargetOf(desired[upserted[i]]);
    ParsePrinted(u.publicKey);
  }

  /** Whatever the request spells, the store stays sound: it files peers under their printed keys, one an email. */
  lemma PartialKeepsStoreSound(iface: Interface, s: State, users: seq<User>, desired: map<string, DesiredPeer>,
                               diff: SyncDiff, s': State)
    requires SoundStore(s.peers) && PartialDone(iface, s, users, desired, diff, s')
    ensures SoundStore(s'.peers)
  {
    UpsertedKeepOwners(s.peers - Elements(diff.removeKeys), diff.upsertPeers);
    forall k | k in s'.peers ensures ParseKey(k) == Some(k) && s'.peers[k].allowedIPs != [] {
      if s'.peers[k] in diff.upsertPeers {
        UpsertsArePrinted(TouchedPart(s.peers, Touched(users)), desired, diff, s'.peers[k]);
      }
    }
  }

  lemma WantedAreOwned(iface: Interface, s: State, users: seq<User>, desired: map<string, DesiredPeer>)
    requires Wants(iface, users, desired) && OwnersAgree(s.peers, Touched(users), desired)
    ensures Owned(s.peers, Touched(users), desired)
  {
    forall t | t in desired ensures desired[t].email in Touched(users) {
      WantedEmailsAreTouched(iface, users, desired, t);
      assert OwnerAllows(s.peers, Touched(users), desired, t);
    }
  }

  /** A clear partial sync reconciles the store: untouched emails keep their peers, touched ones have the desired. */
  lemma PartialReconciles(iface: Interface, s: State, users: seq<User>, desired: map<string, DesiredPeer>,
                          diff: SyncDiff, s': State)
    requires SoundStore(s.peers) && PartialDone(iface, s, users, desired, diff, s')
    requires NoStoredAlias(s.peers, desired) && OneTextAKey(desired)
    ensures Reconciled(s.peers, Touched(users), Respelt(desired), s'.peers) && SoundStore(s'.peers)
    ensures s.peers.Keys * Elements(diff.removeKeys) == s.peers.Keys - s'.peers.Keys
  {
    WantedAreOwned(iface, s, users, desired);
    RespeltIsCanonical(desired);
    RespeltIsAdmissible(s.peers, Touched(users), desired);
    DiffRespelt(TouchedPart(s.peers, Touched(users)), desired, diff);
    CommitReconciles(s.peers, Touched(users), Respelt(desired), diff.(targetPeers := Targets(Respelt(desired))));
    ReconciledIsSound(s.peers, Touched(users), Respelt(desired), s'.peers);
  }

  /** What makes a partial sync safe: no prefix of an untouched peer, no other text for a stored key, no key twice. */
  ghost predicate Clear(peers: Peers, touched: set<string>, desired: map<string, DesiredPeer>) {
    LeavesOthersAlone(peers, touched, desired) && NoStoredAlias(peers, desired) && OneTextAKey(desired)
  }

  /** From agreement, a partial sync ends in agreement with every other email's peer kept exactly when it is clear. */
  lemma PartialStepExact(iface: Interface, s: State, users: seq<User>, desired: map<string, DesiredPeer>,
                         diff: SyncDiff, s': State)
    requires Good(s) && PartialDone(iface, s, users, desired, diff, s')
    ensures Good(s') && OthersKept(s.peers, Touched(users), s'.peers) <==> Clear(s.peers, Touched(users), desired)
  {
    PartialKeepsStoreSound(iface, s, users, desired, diff, s');
    WantedAreOwned(iface, s, users, desired);
    PartialExactly(s.peers, Touched(users), desired, diff, s.device);
  }

  // ---- replacing everything -----------------------------------------------

  lemma TargetsIndependent(desired: map<string, DesiredPeer>, texts: seq<string>, list: seq<PeerInfo>)
    requires WellCollected(desired) && OneTextAKey(desired)
    requires NoDuplicates(texts) && PeersOf(Targets(desired), texts, list)
    ensures Independent(list)
  {
  }

  /** Filing all peers of a map gives the map back. */
  lemma FiledAgain(target: Peers, texts: seq<string>, list: seq<PeerInfo>, filed: Peers)
    requires Filed(target) && Lists(texts, target.Keys) && PeersOf(target, texts, list)
    requires Filed(filed) && Files(list, filed)
    ensures filed == target
  {
  }

  /** The two listings in a replacement, for renamed texts. */
  lemma ListRenamed(target: Peers, key: map<string, Key>, target': Peers, texts: seq<string>, list: seq<PeerInfo>)
    requires Renames(map[], target, key, target') && Lists(texts, target.Keys) && PeersOf(target, texts, list)
    ensures Lists(Renamed(key, texts), target'.Keys) && PeersOf(target', Renamed(key, texts), list)
  {
    RenamedLists(key, texts, target.Keys, target'.Keys);
  }

  lemma SnapshotRenamed(target: Peers, key: map<string, Key>, target': Peers, cs: seq<PeerConfig>)
    requires Renames(map[], target, key, target') && IsSnapshot(target, cs)
    ensures IsSnapshot(target', cs)
  {
    var order :| SnapshotInOrder(target, order, cs);
    RenamedLists(key, order, target.Keys, target'.Keys);
    assert SnapshotInOrder(target', Renamed(key, order), cs);
  }

  lemma ReplacedPeers(desired: map<string, DesiredPeer>, list: seq<PeerInfo>)
    requires WellCollected(desired) && OneTextAKey(desired) && ListsPeers(Targets(desired), list)
    ensures Independent(list) && ByKey(list) == Targets(Respelt(desired))
  {
    var texts :| Lists(texts, Targets(desired).Keys) && PeersOf(Targets(desired), texts, list);
    var target' := Targets(Respelt(desired));
    TargetsIndependent(desired, texts, list);
    RespellingRenames(map[], desired);
    RespeltIsCanonical(desired);
    ListRenamed(Targets(desired), KeyMap(desired), target', texts, list);
    ByKeyHolds(list);
    FiledAgain(target', Renamed(KeyMap(desired), texts), list, ByKey(list));
  }

  lemma RespeltIsSound(desired: map<string, DesiredPeer>)
    requires WellCollected(desired)
    ensures SoundStore(Targets(Respelt(desired))) && DisjointStore(Targets(Respelt(desired)))
  {
    RespeltIsCanonical(desired);
  }

  /** With one text a key, whatever was there before, the desired peers come out sound and in agreement. */
  lemma ReplacedIsGood(desired: map<string, DesiredPeer>, s': State)
    requires WellCollected(desired) && OneTextAKey(desired) && Replaced(desired, s')
    ensures Good(s') && s'.peers == Targets(Respelt(desired))
  {
    var list, cs :| ReplacedWith(desired, s', list, cs);
    ReplacedPeers(desired, list);
    RespeltIsSound(desired);
    RespeltSnapshot(desired, cs);
  }

  lemma RespeltSnapshot(desired: map<string, DesiredPeer>, cs: seq<PeerConfig>)
    requires WellCollected(desired) && OneTextAKey(desired) && IsSnapshot(Targets(desired), cs)
    ensures Agree(Targets(Respelt(desired)), ConfigureAll(NO_PEERS, cs))
  {
    RespellingRenames(map[], desired);
    SnapshotRenamed(Targets(desired), KeyMap(desired), Targets(Respelt(desired)), cs);
    RespeltIsSound(desired);
    SnapshotAgreement(Targets(Respelt(desired)), cs);
  }

  lemma {:induction false} ByKeyMembers(list: seq<PeerInfo>)
    ensures forall k :: k in ByKey(list) ==> ByKey(list)[k] in list && ByKey(list)[k].publicKey == k
    ensures forall u :: u in list ==> u.publicKey in ByKey(list)
  {
    if list != [] {
      ByKeyMembers(list[..|list| - 1]);
    }
  }

  /** A snapshot gives every prefix to the key of the text it was asked for under. */
  lemma SnapshotReaches(desired: map<string, DesiredPeer>, cs: seq<PeerConfig>, t: string, p: Prefix)
    requires WellCollected(desired) && IsSnapshot(Targets(desired), cs) && t in desired && p in desired[t].allowedIPNets
    ensures ConfigureAll(NO_PEERS, cs).Owner(p) == Some(desired[t].parsedKey)
  {
    var order :| SnapshotInOrder(Targets(desired), order, cs);
    assert t in Elements(order);
    var i :| 0 <= i < |order| && order[i] == t;
    SnapshotReachesAt(desired, order, cs, i, p);
  }

  lemma SnapshotReachesAt(desired: map<string, DesiredPeer>, order: seq<string>, cs: seq<PeerConfig>, i: nat, p: Prefix)
    requires WellCollected(desired) && NoDuplicates(order) && i < |cs| == |order|
    requires forall j :: 0 <= j < |cs| ==> order[j] in desired && AddConfig(TargetOf(desired[order[j]])) == Some(cs[j])
    requires p in desired[order[i]].allowedIPNets
    ensures ConfigureAll(NO_PEERS, cs).Owner(p) == Some(desired[order[i]].parsedKey)
  {
    var t := order[i];
    forall j: nat | i + 1 <= j < |cs| ensures Undisturbed(cs[j], desired[t].parsedKey, p) {
      OthersUndisturbing(desired, order, cs, t, p, j);
    }
    assert cs[i].publicKey == desired[t].parsedKey && cs[i].Grants(p);
    GrantTakes(NO_PEERS, cs, i, p);
    OwnerStays(NO_PEERS, cs, i + 1, desired[t].parsedKey, p);
  }

  lemma OthersUndisturbing(desired: map<string, DesiredPeer>, order: seq<string>, cs: seq<PeerConfig>, t: string,
                           p: Prefix, j: nat)
    requires WellCollected(desired) && j < |cs| == |order| && order[j] in desired && order[j] != t
    requires AddConfig(TargetOf(desired[order[j]])) == Some(cs[j])
    requires t in desired && p in desired[t].allowedIPNets
    ensures Undisturbed(cs[j], desired[t].parsedKey, p)
  {
  }

  /** Two texts of one key: the kernel has the prefixes of both, the store those of one. */
  lemma ReplacedTwice(desired: map<string, DesiredPeer>, s': State, s: string, t: string)
    requires WellCollected(desired) && Replaced(desired, s')
    requires s in desired && t in desired && s != t && desired[s].parsedKey == desired[t].parsedKey
    ensures !Good(s')
  {
    var list, cs :| ReplacedWith(desired, s', list, cs);
    var u := ListedUnder(desired, list, t);
    var w := if u == s then t else s;
    var p := desired[w].allowedIPNets[0];
    SnapshotReaches(desired, cs, w, p);
    assert p !in desired[u].allowedIPNets;
  }

  lemma ListedUnder(desired: map<string, DesiredPeer>, list: seq<PeerInfo>, t: string) returns (u: string)
    requires ListsPeers(Targets(desired), list) && t in desired
    ensures u in desired && desired[u].parsedKey == desired[t].parsedKey
    ensures desired[t].parsedKey in ByKey(list) && ByKey(list)[desired[t].parsedKey] == TargetOf(desired[u])
  {
    var texts :| Lists(texts, Targets(desired).Keys) && PeersOf(Targets(desired), texts, list);
    ByKeyMembers(list);
    assert t in Elements(texts);
    var i :| 0 <= i < |texts| && texts[i] == t;
    assert list[i] in list;
    var j :| 0 <= j < |list| && list[j] == ByKey(list)[desired[t].parsedKey];
    u := texts[j];
  }

  /** Startup and a full sync that changes anything end in agreement exactly when no key has two texts. */
  lemma ReplacedExactly(desired: map<string, DesiredPeer>, s': State)
    requires WellCollected(desired) && Replaced(desired, s')
    ensures Good(s') <==> OneTextAKey(desired)
  {
    if OneTextAKey(desired) {
      ReplacedIsGood(desired, s');
    } else {
      var s, t :| s in desired && t in desired && desired[s].parsedKey == desired[t].parsedKey && s != t;
      ReplacedTwice(desired, s', s, t);
    }
  }

  lemma NothingToDo(peers: Peers, desired: map<string, DesiredPeer>)
    requires SoundStore(peers) && WellCollected(desired)
    ensures UpsertTexts(peers, Targets(desired)) == {} && RemoveTexts(peers, Targets(desired)) == {} <==>
            peers == Targets(desired)
  {
    var target := Targets(desired);
    if UpsertTexts(peers, target) == {} && RemoveTexts(peers, target) == {} {
      forall k ensures k in peers <==> k in target {
        assert k !in UpsertTexts(peers, target) && k !in RemoveTexts(peers, target);
      }
      forall k | k in peers ensures peers[k] == target[k] {
        assert k !in UpsertTexts(peers, target);
      }
    }
  }

  /** The "nothing changed" shortcut of a full sync fires exactly when the store already holds the desired peers. */
  lemma UnchangedExactly(peers: Peers, desired: map<string, DesiredPeer>, diff: SyncDiff)
    requires SoundStore(peers) && WellCollected(desired)
    requires IsDiff(peers, desired, diff)
    ensures !diff.changed <==> peers == Targets(desired)
  {
    var upserted, configured :| DiffInOrder(peers, Targets(desired), diff, upserted, configured);
    NothingToDo(peers, desired);
    EmptyList(upserted);
    EmptyList(diff.removeKeys);
  }

  /** Stored targets are spelt as the store prints them. */
  lemma StoredTargetsAreCanonical(peers: Peers, desired: map<string, DesiredPeer>)
    requires SoundStore(peers) && WellCollected(desired) && peers == Targets(desired)
    ensures OneTextAKey(desired) && Targets(Respelt(desired)) == peers
  {
    forall t | t in desired ensures desired[t].parsedKey == t {
      assert t in peers;
    }
    CanonicalIsRespelt(desired);
  }

  /** With one text a key the store holds exactly the desired peers after a full sync. */
  lemma FullStep(iface: Interface, s: State, users: seq<User>, desired: map<string, DesiredPeer>, diff: SyncDiff,
                 s': State)
    requires SoundStore(s.peers) && FullDone(iface, s, users, desired, diff, s') && OneTextAKey(desired)
    ensures SoundStore(s'.peers) && s'.peers == Targets(Respelt(desired))
    ensures Good(s) || diff.changed ==> Good(s')
  {
    UnchangedExactly(s.peers, desired, diff);
    if diff.changed {
      ReplacedIsGood(desired, s');
    } else {
      StoredTargetsAreCanonical(s.peers, desired);
    }
  }

  /** From agreement a full sync ends in agreement exactly when no key has two texts. */
  lemma FullStepExact(iface: Interface, s: State, users: seq<User>, desired: map<string, DesiredPeer>, diff: SyncDiff,
                      s': State)
    requires Good(s) && FullDone(iface, s, users, desired, diff, s')
    ensures Good(s') <==> OneTextAKey(desired)
  {
    if diff.changed {
      ReplacedExactly(desired, s');
    } else {
      UnchangedExactly(s.peers, desired, diff);
      StoredTargetsAreCanonical(s.peers, desired);
    }
  }

  /** A restart sends what is stored: it restores agreement exactly when no prefix is stored twice. */
  lemma RestartStepExact(s: State, s': State)
    requires SoundStore(s.peers) && RestartDone(s, s')
    ensures Good(s') <==> DisjointStore(s.peers)
    ensures Good(s) ==> s' == s
  {
    var cs :| IsSnapshot(s.peers, cs) && s' == s.(device := ConfigureAll(NO_PEERS, cs));
    SnapshotAgreement(s.peers, cs);
    if Good(s) {
      AgreementIsDisjoint(s.peers, s.device);
      AgreementIsUnique(s.peers, s.device, s'.device);
    }
  }

  // ---- every run ----------------------------------------------------------

  /** A run: a startup, then steps. */
  ghost predicate IsRun(iface: Interface, users: seq<User>, ops: seq<Op>, states: seq<State>) {
    && |states| == |ops| + 1
    && Started(iface, users, states[0])
    && forall i :: 0 <= i < |ops| ==> Step(iface, states[i], ops[i], states[i + 1])
  }

  /** No two texts of a request parse to one key. */
  ghost predicate Unambiguous(iface: Interface, users: seq<User>) {
    forall desired :: Wants(iface, users, desired) ==> OneTextAKey(desired)
  }

  /** What a step that goes through must ask for: a clear partial sync, an unambiguous full one. */
  ghost predicate Considerate(iface: Interface, s: State, op: Op, s': State) {
    match op
    case Partial(users) =>
      forall desired, diff ::
        PartialDone(iface, s, users, desired, diff, s') ==> Clear(s.peers, Touched(users), desired)
    case Full(users) =>
      forall desired, diff :: FullDone(iface, s, users, desired, diff, s') ==> OneTextAKey(desired)
    case Restart => true
  }

  /** A partial sync leaves the peers of untouched emails alone. */
  ghost predicate Respectful(s: State, op: Op, s': State) {
    op.Partial? ==> OthersKept(s.peers, Touched(op.users), s'.peers)
  }

  lemma StepKeepsAgreement(iface: Interface, s: State, op: Op, s': State)
    requires Good(s) && Step(iface, s, op, s')
    ensures Good(s') && Respectful(s, op, s') <==> Considerate(iface, s, op, s')
  {
    match op
    case Partial(users) =>
      forall desired, diff | PartialDone(iface, s, users, desired, diff, s')
        ensures Good(s') && Respectful(s, op, s') <==> Clear(s.peers, Touched(users), desired)
      {
        PartialStepExact(iface, s, users, desired, diff, s');
      }
    case Full(users) =>
      forall desired, diff | FullDone(iface, s, users, desired, diff, s') ensures Good(s') <==> OneTextAKey(desired) {
        FullStepExact(iface, s, users, desired, diff, s');
      }
    case Restart =>
      if s' != s {
        RestartStepExact(s, s');
      }
  }

  lemma StartIsGood(iface: Interface, users: seq<User>, s: State)
    requires Started(iface, users, s)
    ensures Good(s) <==> Unambiguous(iface, users)
  {
    var desired :| Wants(iface, users, desired) && Replaced(desired, s);
    ReplacedExactly(desired, s);
    forall other | Wants(iface, users, other) ensures other == desired {
      WantsOnce(iface, users, other, desired);
    }
  }

  /**
   * Over every run, with any spelling of keys: in every state the kernel's peers and prefixes equal the store's, and no
   * partial sync changes the peer of an email it does not touch, if and only if the startup and every step are clear.
   */
  lemma AgreementOverRuns(iface: Interface, users: seq<User>, ops: seq<Op>, states: seq<State>)
    requires IsRun(iface, users, ops, states)
    ensures (forall i :: 0 <= i < |states| ==> Good(states[i])) &&
            (forall i :: 0 <= i < |ops| ==> Respectful(states[i], ops[i], states[i + 1])) <==>
            Unambiguous(iface, users) &&
            (forall i :: 0 <= i < |ops| ==> Considerate(iface, states[i], ops[i], states[i + 1]))
  {
    StartIsGood(iface, users, states[0]);
    if Good(states[0]) && forall i :: 0 <= i < |ops| ==> Considerate(iface, states[i], ops[i], states[i + 1]) {
      forall i | 0 <= i < |states| ensures Good(states[i]) {
        ConsiderateRunIsGood(iface, users, ops, states, i);
      }
      forall i | 0 <= i < |ops| ensures Respectful(states[i], ops[i], states[i + 1]) {
        StepKeepsAgreement(iface, states[i], ops[i], states[i + 1]);
      }
    }
    if (forall i :: 0 <= i < |states| ==> Good(states[i])) &&
       (forall i :: 0 <= i < |ops| ==> Respectful(states[i], ops[i], states[i + 1])) {
      forall i | 0 <= i < |ops| ensures Considerate(iface, states[i], ops[i], states[i + 1]) {
        StepKeepsAgreement(iface, states[i], ops[i], states[i + 1]);
      }
    }
  }

  lemma {:induction false} ConsiderateRunIsGood(iface: Interface, users: seq<User>, ops: seq<Op>, states: seq<State>,
                                                n: nat)
    requires IsRun(iface, users, ops, states) && Good(states[0]) && n < |states|
    requires forall i :: 0 <= i < |ops| ==> Considerate(iface, states[i], ops[i], states[i + 1])
    ensures Good(states[n])
  {
    if n > 0 {
      ConsiderateRunIsGood(iface, users, ops, states, n - 1);
      StepKeepsAgreement(iface, states[n - 1], ops[n - 1], states[n - 1 + 1]);
    }
  }

  // ---- full and partial sync ----------------------------------------------

  lemma WantsOnce(iface: Interface, users: seq<User>, a: map<string, DesiredPeer>, b: map<string, DesiredPeer>)
    requires Wants(iface, users, a) && Wants(iface, users, b)
    ensures a == b
  {
    CollectsOnce(Asks(iface, Normalized(users)), a, b);
  }

  /** When every stored email is touched, a clear full and partial sync end in the same store and the same kernel. */
  lemma FullEqualsPartial(iface: Interface, s: State, users: seq<User>, full: State, partial: State,
                          df: map<string, DesiredPeer>, ff: SyncDiff, dp: map<string, DesiredPeer>, fp: SyncDiff)
    requires Good(s) && NoStoredAlias(s.peers, dp) && OneTextAKey(dp)
    requires forall k :: k in s.peers ==> s.peers[k].email in Touched(users)
    requires FullDone(iface, s, users, df, ff, full) && PartialDone(iface, s, users, dp, fp, partial)
    ensures full == partial
  {
    WantsOnce(iface, users, df, dp);
    FullStep(iface, s, users, df, ff, full);
    PartialReconciles(iface, s, users, dp, fp, partial);
    AllTouched(s.peers, Touched(users), Respelt(dp), partial.peers);
    PartialStepExact(iface, s, users, dp, fp, partial);
    AgreementIsUnique(full.peers, full.device, partial.device);
  }

  lemma AllTouched(peers: Peers, touched: set<string>, desired: map<string, DesiredPeer>, after: Peers)
    requires forall k :: k in peers ==> peers[k].email in touched
    requires Reconciled(peers, touched, desired, after)
    ensures after == Targets(desired)
  {
  }
}
