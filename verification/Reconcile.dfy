/** Store and kernel stay in agreement: the effect of one reconciliation on both. */
module Reconcile {
  import opened Base
  import opened Keys
  import opened Networks
  import opened DesiredPeers
  import opened PeerStores
  import opened Devices
  import opened SyncDiffs

  /** The request spells its keys the way the store prints them. */
  ghost predicate CanonicalTexts(desired: map<string, DesiredPeer>) {
    forall s :: s in desired ==> desired[s].parsedKey == s
  }

  /** What every reachable store satisfies. */
  ghost predicate SoundStore(peers: Peers) {
    && DistinctOwners(peers)
    && forall k :: k in peers ==> peers[k].publicKey == k && ParseKey(k) == Some(k) && peers[k].allowedIPs != []
  }

  /** The kernel's peers and routes are exactly the store's. */
  ghost predicate Agree(peers: Peers, d: Device) {
    && d.peers == peers.Keys
    && (forall k, p :: k in peers && p in peers[k].allowedIPs ==> d.Owner(p) == Some(k))
    && (forall p :: p in d.routes ==> d.routes[p] in peers && p in peers[d.routes[p]].allowedIPs)
  }

  /** No prefix is stored at two peers. */
  ghost predicate DisjointStore(peers: Peers) {
    forall j, k, p :: j in peers && k in peers && p in peers[j].allowedIPs && p in peers[k].allowedIPs ==> j == k
  }

  lemma AgreementIsDisjoint(peers: Peers, d: Device)
    requires Agree(peers, d)
    ensures DisjointStore(peers)
  {
    forall j, k, p | j in peers && k in peers && p in peers[j].allowedIPs && p in peers[k].allowedIPs ensures j == k {
      assert d.Owner(p) == Some(j) && d.Owner(p) == Some(k);
    }
  }

  /** The store determines the kernel that agrees with it. */
  lemma AgreementIsUnique(peers: Peers, a: Device, b: Device)
    requires Agree(peers, a) && Agree(peers, b)
    ensures a == b
  {
    forall p ensures a.Owner(p) == b.Owner(p) {
      assert p in a.routes ==> a.Owner(p) == Some(a.routes[p]);
      assert p in b.routes ==> b.Owner(p) == Some(b.routes[p]);
    }
    SameOwners(a, b);
  }

  /** The stored peers of the touched emails. */
  function TouchedPart(peers: Peers, touched: set<string>): Peers {
    map k | k in peers && peers[k].email in touched :: peers[k]
  }

  /** A request's peers belong to touched emails, and so does every stored key it mentions. */
  ghost predicate Admissible(peers: Peers, touched: set<string>, desired: map<string, DesiredPeer>) {
    && (forall s :: s in desired ==> desired[s].email in touched)
    && (forall s :: s in desired && s in peers ==> peers[s].email in touched)
  }

  /** The outcome: untouched emails keep their peers, touched emails have exactly the desired ones. */
  ghost predicate Reconciled(peers: Peers, touched: set<string>, desired: map<string, DesiredPeer>, after: Peers) {
    && (forall s :: s in desired ==> s in after && after[s] == TargetOf(desired[s]))
    && (forall k :: k in peers && peers[k].email !in touched ==> k in after && after[k] == peers[k])
    && (forall k :: k in after ==> k in desired || (k in peers && peers[k].email !in touched))
  }

  lemma ReconciledOnce(peers: Peers, touched: set<string>, desired: map<string, DesiredPeer>, a: Peers, b: Peers)
    requires Reconciled(peers, touched, desired, a) && Reconciled(peers, touched, desired, b)
    ensures a == b
  {
  }

  lemma ReconciledIsSound(peers: Peers, touched: set<string>, desired: map<string, DesiredPeer>, after: Peers)
    requires SoundStore(peers) && WellCollected(desired) && CanonicalTexts(desired)
    requires Admissible(peers, touched, desired) && Reconciled(peers, touched, desired, after)
    ensures SoundStore(after)
  {
  }

  /** No request prefix is held by a peer the request does not touch. */
  ghost predicate LeavesOthersAlone(peers: Peers, touched: set<string>, desired: map<string, DesiredPeer>) {
    forall k, s, p :: k in peers && peers[k].email !in touched && s in desired && p in desired[s].allowedIPNets ==>
      p !in peers[k].allowedIPs
  }

  // ---- the store ----------------------------------------------------------

  lemma UpsertsIndependent(existing: Peers, desired: map<string, DesiredPeer>, diff: SyncDiff,
                           upserted: seq<string>, configured: seq<string>)
    requires DiffInOrder(existing, Targets(desired), diff, upserted, configured)
    requires WellCollected(desired) && CanonicalTexts(desired)
    ensures Independent(diff.upsertPeers)
    ensures forall u :: u in diff.upsertPeers <==>
                        u.publicKey in UpsertTexts(existing, Targets(desired)) && u == Targets(desired)[u.publicKey]
  {
    var target := Targets(desired);
    forall u
      ensures u in diff.upsertPeers <==> u.publicKey in UpsertTexts(existing, target) && u == target[u.publicKey]
    {
      if u in diff.upsertPeers {
        var i :| 0 <= i < |diff.upsertPeers| && diff.upsertPeers[i] == u;
        assert upserted[i] in Elements(upserted);
      } else if u.publicKey in UpsertTexts(existing, target) {
        assert u.publicKey in Elements(upserted);
        var i :| 0 <= i < |upserted| && upserted[i] == u.publicKey;
        assert diff.upsertPeers[i] == target[u.publicKey];
      }
    }
  }

  /** Committing the diff to the store reconciles it, and the keys reported as removed are those that left. */
  lemma CommitReconciles(peers: Peers, touched: set<string>, desired: map<string, DesiredPeer>, diff: SyncDiff)
    requires SoundStore(peers) && WellCollected(desired) && CanonicalTexts(desired)
    requires Admissible(peers, touched, desired)
    requires IsDiff(TouchedPart(peers, touched), desired, diff)
    ensures var after := UpsertedAll(peers - Elements(diff.removeKeys), diff.upsertPeers);
            && Reconciled(peers, touched, desired, after)
            && peers.Keys * Elements(diff.removeKeys) == peers.Keys - after.Keys
  {
    var existing, target := TouchedPart(peers, touched), Targets(desired);
    var upserted, configured :| DiffInOrder(existing, target, diff, upserted, configured);
    var kept := peers - Elements(diff.removeKeys);
    UpsertsIndependent(existing, desired, diff, upserted, configured);
    IndependentUpsertsOverride(kept, diff.upsertPeers);
    UpsertedAllStaysFiled(kept, diff.upsertPeers);
    OverrideReconciles(peers, touched, desired, Elements(diff.upsertPeers), UpsertedAll(kept, diff.upsertPeers));
    RemovedLeft(peers, touched, desired, UpsertedAll(kept, diff.upsertPeers));
  }

  /** `ups` are the targets the diff upserts. */
  ghost predicate AreUpserts(existing: Peers, target: Peers, ups: set<PeerInfo>) {
    forall u :: u in ups <==> u.publicKey in UpsertTexts(existing, target) && u == target[u.publicKey]
  }

  /** Committing the diff: removals, then the upserts at once. */
  ghost predicate Commits(peers: Peers, touched: set<string>, desired: map<string, DesiredPeer>, ups: set<PeerInfo>,
                          after: Peers) {
    var existing, target := TouchedPart(peers, touched), Targets(desired);
    && AreUpserts(existing, target, ups)
    && Filed(after)
    && Overridden(peers - RemoveTexts(existing, target), ups, after)
  }

  lemma OverrideReconciles(peers: Peers, touched: set<string>, desired: map<string, DesiredPeer>, ups: set<PeerInfo>,
                           after: Peers)
    requires SoundStore(peers) && WellCollected(desired) && CanonicalTexts(desired)
    requires Admissible(peers, touched, desired)
    requires Commits(peers, touched, desired, ups, after)
    ensures Reconciled(peers, touched, desired, after)
  {
    forall s | s in desired ensures s in after && after[s] == TargetOf(desired[s]) {
      DesiredServed(peers, touched, desired, ups, after, s);
    }
    forall k | k in peers && peers[k].email !in touched ensures k in after && after[k] == peers[k] {
      OthersStay(peers, touched, desired, ups, after, k);
    }
    forall k | k in after ensures k in desired || (k in peers && peers[k].email !in touched) {
      NobodyElse(peers, touched, desired, ups, after, k);
    }
  }

  lemma DesiredServed(peers: Peers, touched: set<string>, desired: map<string, DesiredPeer>, ups: set<PeerInfo>,
                      after: Peers, s: string)
    requires SoundStore(peers) && WellCollected(desired) && CanonicalTexts(desired)
    requires Admissible(peers, touched, desired)
    requires Commits(peers, touched, desired, ups, after)
    requires s in desired
    ensures s in after && after[s] == TargetOf(desired[s])
  {
    if s in UpsertTexts(TouchedPart(peers, touched), Targets(desired)) {
      UpsertServed(TouchedPart(peers, touched), Targets(desired), ups, after, s);
    } else {
      UnchangedUndisturbed(peers, touched, desired, ups, s);
      assert s !in RemoveTexts(TouchedPart(peers, touched), Targets(desired));
    }
  }

  lemma UpsertServed(existing: Peers, target: Peers, ups: set<PeerInfo>, after: Peers, s: string)
    requires AreUpserts(existing, target, ups) && s in UpsertTexts(existing, target) && target[s].publicKey == s
    requires forall u :: u in ups ==> u.publicKey in after && after[u.publicKey] == u
    ensures s in after && after[s] == target[s]
  {
  }

  lemma OthersStay(peers: Peers, touched: set<string>, desired: map<string, DesiredPeer>, ups: set<PeerInfo>,
                   after: Peers, k: Key)
    requires SoundStore(peers) && WellCollected(desired) && CanonicalTexts(desired)
    requires Admissible(peers, touched, desired)
    requires Commits(peers, touched, desired, ups, after)
    requires k in peers && peers[k].email !in touched
    ensures k in after && after[k] == peers[k]
  {
    OthersUndisturbed(peers, touched, desired, ups, k);
    assert k !in RemoveTexts(TouchedPart(peers, touched), Targets(desired));
  }

  lemma NobodyElse(peers: Peers, touched: set<string>, desired: map<string, DesiredPeer>, ups: set<PeerInfo>,
                   after: Peers, k: Key)
    requires SoundStore(peers) && WellCollected(desired) && CanonicalTexts(desired)
    requires Admissible(peers, touched, desired)
    requires Commits(peers, touched, desired, ups, after)
    requires k in after
    ensures k in desired || (k in peers && peers[k].email !in touched)
  {
    var existing, target := TouchedPart(peers, touched), Targets(desired);
    if after[k] in ups {
      assert k in UpsertTexts(existing, target);
    } else {
      assert k in peers && k !in RemoveTexts(existing, target);
    }
  }

  /** A removed key is neither desired nor an untouched email's, and every other stored key is one or the other. */
  lemma RemovedLeft(peers: Peers, touched: set<string>, desired: map<string, DesiredPeer>, after: Peers)
    requires SoundStore(peers) && Reconciled(peers, touched, desired, after)
    ensures peers.Keys * RemoveTexts(TouchedPart(peers, touched), Targets(desired)) == peers.Keys - after.Keys
  {
  }

  /** A target the diff leaves alone is stored already, and no upsert takes its key or its email. */
  lemma UnchangedUndisturbed(peers: Peers, touched: set<string>, desired: map<string, DesiredPeer>,
                             ups: set<PeerInfo>, s: string)
    requires SoundStore(peers) && WellCollected(desired) && CanonicalTexts(desired)
    requires Admissible(peers, touched, desired)
    requires AreUpserts(TouchedPart(peers, touched), Targets(desired), ups)
    requires s in desired && s !in UpsertTexts(TouchedPart(peers, touched), Targets(desired))
    ensures s in peers && peers[s] == TargetOf(desired[s]) && !Disturbed(ups, peers[s])
  {
    assert !NeedsUpsert(TouchedPart(peers, touched), Targets(desired), s);
    forall u | u in ups ensures u.publicKey != s && u.email != peers[s].email {
      assert u.publicKey in desired;
    }
  }

  lemma OthersUndisturbed(peers: Peers, touched: set<string>, desired: map<string, DesiredPeer>, ups: set<PeerInfo>,
                          k: Key)
    requires Admissible(peers, touched, desired)
    requires AreUpserts(TouchedPart(peers, touched), Targets(desired), ups)
    requires k in peers && peers[k].email !in touched && peers[k].publicKey == k
    ensures !Disturbed(ups, peers[k])
  {
  }

  // ---- the kernel ---------------------------------------------------------

  /** The configurations a diff sends, by peer. */
  ghost predicate IsConfig(existing: Peers, target: Peers, c: PeerConfig) {
    if c.remove then NeedsRemoval(existing, target, c.publicKey) && c == RemoveConfig(c.publicKey)
    else NeedsConfig(existing, target, c.publicKey) && c == ConfigFor(existing, target, c.publicKey)
  }

  /** With canonical texts a diff sends one configuration a peer and no prefix twice. */
  lemma DiffConfigs(existing: Peers, desired: map<string, DesiredPeer>, diff: SyncDiff,
                    upserted: seq<string>, configured: seq<string>)
    requires SoundStore(existing) && WellCollected(desired) && CanonicalTexts(desired)
    requires DiffInOrder(existing, Targets(desired), diff, upserted, configured)
    ensures forall c :: c in diff.peerConfigs <==> IsConfig(existing, Targets(desired), c)
    ensures Compatible(diff.peerConfigs)
  {
    var target, cs := Targets(desired), diff.peerConfigs;
    forall c | IsConfig(existing, target, c) ensures c in cs {
      ConfigIsSent(existing, desired, diff, upserted, configured, c);
    }
    forall i | 0 <= i < |cs| ensures IsConfig(existing, target, cs[i]) {
      ConfigAt(existing, desired, diff, upserted, configured, i);
    }
    forall i, j | 0 <= i < j < |cs| ensures Apart(cs[i], cs[j]) {
      ConfigAt(existing, desired, diff, upserted, configured, i);
      ConfigAt(existing, desired, diff, upserted, configured, j);
      TextsDiffer(existing, target, diff, upserted, configured, i, j);
      ConfigsApart(existing, desired, cs[i], cs[j]);
    }
  }

  lemma ConfigIsSent(existing: Peers, desired: map<string, DesiredPeer>, diff: SyncDiff,
                     upserted: seq<string>, configured: seq<string>, c: PeerConfig)
    requires SoundStore(existing) && WellCollected(desired) && CanonicalTexts(desired)
    requires DiffInOrder(existing, Targets(desired), diff, upserted, configured)
    requires IsConfig(existing, Targets(desired), c)
    ensures c in diff.peerConfigs
  {
    var cs, n := diff.peerConfigs, |configured|;
    if c.remove {
      assert c.publicKey in RemoveTexts(existing, Targets(desired));
      RemovalIsSent(diff.removeKeys, cs[n..], c);
      assert c in cs[n..];
    } else {
      assert c.publicKey in ConfigTexts(existing, Targets(desired));
      AdditionIsSent(existing, Targets(desired), configured, cs[..n], c);
      assert c in cs[..n];
    }
  }

  lemma RemovalIsSent(texts: seq<string>, cs: seq<PeerConfig>, c: PeerConfig)
    requires RemovalsOf(texts, cs) && c.publicKey in Elements(texts)
    requires ParseKey(c.publicKey).Some? && c == RemoveConfig(c.publicKey)
    ensures c in cs
  {
  }

  lemma AdditionIsSent(existing: Peers, target: Peers, texts: seq<string>, cs: seq<PeerConfig>, c: PeerConfig)
    requires ConfigsOf(existing, target, texts, cs) && c.publicKey in Elements(texts)
    requires c.publicKey in target && c == ConfigFor(existing, target, c.publicKey)
    ensures c in cs
  {
  }

  lemma TextsDiffer(existing: Peers, target: Peers, diff: SyncDiff, upserted: seq<string>, configured: seq<string>,
                    i: nat, j: nat)
    requires DiffInOrder(existing, target, diff, upserted, configured)
    requires i < j < |diff.peerConfigs|
    ensures TextAt(diff, configured, i) != TextAt(diff, configured, j)
  {
    if i < |configured| <= j {
      assert configured[i] in Elements(configured);
      assert diff.removeKeys[j - |configured|] in Elements(diff.removeKeys);
    }
  }

  lemma ConfigsApart(existing: Peers, desired: map<string, DesiredPeer>, b: PeerConfig, c: PeerConfig)
    requires WellCollected(desired) && b.publicKey != c.publicKey
    requires IsConfig(existing, Targets(desired), b) && IsConfig(existing, Targets(desired), c)
    ensures Apart(b, c)
  {
  }

  lemma ConfigAt(existing: Peers, desired: map<string, DesiredPeer>, diff: SyncDiff,
                 upserted: seq<string>, configured: seq<string>, i: nat)
    requires SoundStore(existing) && WellCollected(desired) && CanonicalTexts(desired)
    requires DiffInOrder(existing, Targets(desired), diff, upserted, configured)
    requires i < |diff.peerConfigs|
    ensures IsConfig(existing, Targets(desired), diff.peerConfigs[i])
    ensures diff.peerConfigs[i].publicKey == TextAt(diff, configured, i)
  {
    var n := |configured|;
    if i < n {
      assert configured[i] in Elements(configured);
      assert diff.peerConfigs[..n][i] == diff.peerConfigs[i];
    } else {
      assert diff.removeKeys[i - n] in Elements(diff.removeKeys);
      assert diff.peerConfigs[n..][i - n] == diff.peerConfigs[i];
    }
  }

  /** The key text the configuration at `i` was built from. */
  ghost function TextAt(diff: SyncDiff, configured: seq<string>, i: nat): string
    requires i < |configured| + |diff.removeKeys|
  {
    if i < |configured| then configured[i] else diff.removeKeys[i - |configured|]
  }

  ghost predicate Sends(existing: Peers, target: Peers, cs: set<PeerConfig>) {
    forall c :: c in cs <==> IsConfig(existing, target, c)
  }

  /** `after'` is what the kernel makes of the configurations `cs` of the diff. */
  ghost predicate Applied(peers: Peers, touched: set<string>, desired: map<string, DesiredPeer>, d: Device,
                          cs: set<PeerConfig>, after': Device) {
    Settles(d, cs, after') && Sends(TouchedPart(peers, touched), Targets(desired), cs)
  }

  /** What the diff does to one key of the outcome. */
  lemma KeyFates(peers: Peers, touched: set<string>, desired: map<string, DesiredPeer>, after: Peers,
                 cs: set<PeerConfig>, k: Key)
    requires SoundStore(peers) && WellCollected(desired) && CanonicalTexts(desired)
    requires Admissible(peers, touched, desired) && Reconciled(peers, touched, desired, after)
    requires Sends(TouchedPart(peers, touched), Targets(desired), cs)
    ensures var existing, target := TouchedPart(peers, touched), Targets(desired);
            || (k in after && k in target && ConfigFor(existing, target, k) in cs && after[k] == target[k])
            || (k !in after && k in peers && ParseKey(k).Some? && RemoveConfig(k) in cs &&
                RemoveConfig(k).publicKey == k)
            || ((forall c :: c in cs ==> c.publicKey != k) && (k in after <==> k in peers) &&
                (k in after ==> after[k].allowedIPs == peers[k].allowedIPs))
  {
    var existing, target := TouchedPart(peers, touched), Targets(desired);
    if NeedsConfig(existing, target, k) {
      assert IsConfig(existing, target, ConfigFor(existing, target, k));
    } else if NeedsRemoval(existing, target, k) {
      assert IsConfig(existing, target, RemoveConfig(k));
    } else {
      forall c | c in cs ensures c.publicKey != k {
        assert IsConfig(existing, target, c);
      }
    }
  }

  lemma PeersFollow(peers: Peers, touched: set<string>, desired: map<string, DesiredPeer>, after: Peers, d: Device,
                    cs: set<PeerConfig>, after': Device)
    requires SoundStore(peers) && WellCollected(desired) && CanonicalTexts(desired)
    requires Admissible(peers, touched, desired) && Reconciled(peers, touched, desired, after)
    requires Agree(peers, d) && Applied(peers, touched, desired, d, cs, after')
    ensures after'.peers == after.Keys
  {
    var existing, target := TouchedPart(peers, touched), Targets(desired);
    forall k ensures k in after'.peers <==> k in after {
      KeyFates(peers, touched, desired, after, cs, k);
    }
  }

  /** A prefix nobody is given stays with an owner that gets no configuration. */
  lemma LeftoverStays(d: Device, cs: set<PeerConfig>, after: Device, k: Key, p: Prefix)
    requires Settles(d, cs, after) && d.Owner(p) == Some(k)
    requires forall c :: c in cs ==> c.publicKey != k && !c.Grants(p)
    ensures after.Owner(p) == Some(k)
  {
  }

  /** A stored prefix is routed to its peer. */
  lemma RouteForward(peers: Peers, touched: set<string>, desired: map<string, DesiredPeer>, after: Peers, d: Device,
                     cs: set<PeerConfig>, after': Device, k: Key, p: Prefix)
    requires SoundStore(peers) && WellCollected(desired) && CanonicalTexts(desired)
    requires Admissible(peers, touched, desired) && Reconciled(peers, touched, desired, after)
    requires Agree(peers, d) && Applied(peers, touched, desired, d, cs, after')
    requires LeavesOthersAlone(peers, touched, desired)
    requires k in after && p in after[k].allowedIPs
    ensures after'.Owner(p) == Some(k)
  {
    var existing, target := TouchedPart(peers, touched), Targets(desired);
    KeyFates(peers, touched, desired, after, cs, k);
    if k in target && ConfigFor(existing, target, k) in cs {
      assert ConfigFor(existing, target, k).Grants(p);
    } else {
      NotGranted(peers, touched, desired, after, cs, k, p);
      LeftoverStays(d, cs, after', k, p);
    }
  }

  lemma NotGranted(peers: Peers, touched: set<string>, desired: map<string, DesiredPeer>, after: Peers,
                   cs: set<PeerConfig>, k: Key, p: Prefix)
    requires WellCollected(desired) && CanonicalTexts(desired)
    requires Reconciled(peers, touched, desired, after) && LeavesOthersAlone(peers, touched, desired)
    requires Sends(TouchedPart(peers, touched), Targets(desired), cs)
    requires k in after && p in after[k].allowedIPs && forall c :: c in cs ==> c.publicKey != k
    ensures forall c :: c in cs ==> !c.Grants(p)
  {
    forall c | c in cs ensures !c.Grants(p) {
      assert IsConfig(TouchedPart(peers, touched), Targets(desired), c);
    }
  }

  /** A routed prefix is stored at its peer. */
  lemma RouteBack(peers: Peers, touched: set<string>, desired: map<string, DesiredPeer>, after: Peers, d: Device,
                  cs: set<PeerConfig>, after': Device, p: Prefix)
    requires SoundStore(peers) && WellCollected(desired) && CanonicalTexts(desired)
    requires Admissible(peers, touched, desired) && Reconciled(peers, touched, desired, after)
    requires Agree(peers, d) && Applied(peers, touched, desired, d, cs, after')
    requires p in after'.routes
    ensures after'.routes[p] in after && p in after[after'.routes[p]].allowedIPs
  {
    var existing, target := TouchedPart(peers, touched), Targets(desired);
    if exists c :: c in cs && c.Grants(p) {
      var c :| c in cs && c.Grants(p);
      assert IsConfig(existing, target, c);
      assert after'.Owner(p) == Some(c.publicKey);
    } else {
      assert after'.Owner(p) == Leftover(d, cs, p);
      var k := d.routes[p];
      assert k in peers && p in peers[k].allowedIPs;
      OwnerKept(peers, touched, desired, cs, k);
    }
  }

  /** A peer without a clearing configuration is untouched, or its networks are still the desired ones. */
  lemma OwnerKept(peers: Peers, touched: set<string>, desired: map<string, DesiredPeer>, cs: set<PeerConfig>, k: Key)
    requires SoundStore(peers) && WellCollected(desired) && CanonicalTexts(desired) && k in peers
    requires Sends(TouchedPart(peers, touched), Targets(desired), cs)
    requires !(exists c :: c in cs && c.publicKey == k && c.Clears())
    ensures peers[k].email !in touched || (k in desired && desired[k].allowedIPNets == peers[k].allowedIPs)
  {
    var existing, target := TouchedPart(peers, touched), Targets(desired);
    if peers[k].email in touched {
      if k !in desired {
        assert IsConfig(existing, target, RemoveConfig(k));
      } else if desired[k].allowedIPNets != peers[k].allowedIPs {
        assert IsConfig(existing, target, ConfigFor(existing, target, k));
      }
    }
  }

  /** A prefix asked for by the request and held by an untouched peer ends up stored twice. */
  lemma SharedPrefixDisagrees(peers: Peers, touched: set<string>, desired: map<string, DesiredPeer>, after: Peers,
                              after': Device)
    requires Admissible(peers, touched, desired) && Reconciled(peers, touched, desired, after)
    requires Agree(after, after')
    ensures LeavesOthersAlone(peers, touched, desired)
  {
    AgreementIsDisjoint(after, after');
    forall k, s, p | k in peers && peers[k].email !in touched && s in desired && p in desired[s].allowedIPNets
      ensures p !in peers[k].allowedIPs
    {
      assert k in after && s in after && after[s].allowedIPs == desired[s].allowedIPNets;
    }
  }

  /**
   * One partial reconciliation keeps store and kernel in agreement exactly when the request asks for no prefix that
   * an untouched peer holds, whatever order the configurations come in.
   */
  lemma PartialAgreement(peers: Peers, touched: set<string>, desired: map<string, DesiredPeer>, after: Peers,
                         d: Device, cs: set<PeerConfig>, after': Device)
    requires SoundStore(peers) && WellCollected(desired) && CanonicalTexts(desired)
    requires Admissible(peers, touched, desired) && Reconciled(peers, touched, desired, after)
    requires Agree(peers, d) && Applied(peers, touched, desired, d, cs, after')
    ensures Agree(after, after') <==> LeavesOthersAlone(peers, touched, desired)
  {
    if LeavesOthersAlone(peers, touched, desired) {
      KernelFollows(peers, touched, desired, after, d, cs, after');
    }
    if Agree(after, after') {
      SharedPrefixDisagrees(peers, touched, desired, after, after');
    }
  }

  lemma KernelFollows(peers: Peers, touched: set<string>, desired: map<string, DesiredPeer>, after: Peers,
                      d: Device, cs: set<PeerConfig>, after': Device)
    requires SoundStore(peers) && WellCollected(desired) && CanonicalTexts(desired)
    requires Admissible(peers, touched, desired) && Reconciled(peers, touched, desired, after)
    requires Agree(peers, d) && Applied(peers, touched, desired, d, cs, after')
    requires LeavesOthersAlone(peers, touched, desired)
    ensures Agree(after, after')
  {
    PeersFollow(peers, touched, desired, after, d, cs, after');
    forall k, p | k in after && p in after[k].allowedIPs ensures after'.Owner(p) == Some(k) {
      RouteForward(peers, touched, desired, after, d, cs, after', k, p);
    }
    forall p | p in after'.routes ensures after'.routes[p] in after && p in after[after'.routes[p]].allowedIPs {
      RouteBack(peers, touched, desired, after, d, cs, after', p);
    }
  }

  /** Sending a diff's configurations is `Applied`. */
  lemma DiffIsApplied(peers: Peers, touched: set<string>, desired: map<string, DesiredPeer>, diff: SyncDiff, d: Device)
    requires SoundStore(peers) && WellCollected(desired) && CanonicalTexts(desired)
    requires IsDiff(TouchedPart(peers, touched), desired, diff)
    ensures Applied(peers, touched, desired, d, Elements(diff.peerConfigs), ConfigureAll(d, diff.peerConfigs))
  {
    DiffSends(TouchedPart(peers, touched), desired, diff);
    ConfigureSettles(d, diff.peerConfigs);
  }

  lemma DiffSends(existing: Peers, desired: map<string, DesiredPeer>, diff: SyncDiff)
    requires SoundStore(existing) && WellCollected(desired) && CanonicalTexts(desired) &&
             IsDiff(existing, desired, diff)
    ensures Sends(existing, Targets(desired), Elements(diff.peerConfigs)) && Compatible(diff.peerConfigs)
  {
    var upserted, configured :| DiffInOrder(existing, Targets(desired), diff, upserted, configured);
    DiffConfigs(existing, desired, diff, upserted, configured);
  }
}
