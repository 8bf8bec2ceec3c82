/** Whose peers the backend stores: those of users assigned to the interface, after every step and over every run. */
module WireGuardPeers {
  import opened Base
  import opened Keys
  import opened Networks
  import opened Common
  import opened DesiredPeers
  import opened PeerStores
  import opened Devices
  import opened SyncDiffs
  import opened Reconcile
  import opened Snapshots
  import opened Spellings
  import opened Aliases
  import opened WireGuardRuns

  /** The stored peer is the user's, whichever text the user spells its key by. */
  ghost predicate IsPeerOf(iface: Interface, u: User, peer: PeerInfo) {
    && GetsPeer(iface, u)
    && var text := u.proxies.value.wireguard.value.publicKey;
       Gets(iface, u, DesiredPeer(peer.email, text, peer.publicKey, peer.allowedIPs))
  }

  /** Some user of the request, the last of its email, gets the peer. */
  ghost predicate AsksFor(iface: Interface, users: seq<User>, peer: PeerInfo) {
    exists u :: LastOfItsEmail(users, u) && IsPeerOf(iface, u, peer)
  }

  /** Every peer in the store is asked for. */
  ghost predicate OnlyAsked(iface: Interface, users: seq<User>, peers: Peers) {
    forall k :: k in peers ==> AsksFor(iface, users, peers[k])
  }

  ghost predicate HasPeer(iface: Interface, u: User, peers: Peers) {
    exists k :: k in peers && IsPeerOf(iface, u, peers[k])
  }

  /** Every user that gets a peer has it in the store. */
  ghost predicate AllStored(iface: Interface, users: seq<User>, peers: Peers) {
    forall u :: LastOfItsEmail(users, u) && GetsPeer(iface, u) ==> HasPeer(iface, u, peers)
  }

  // ---- what a request wants -----------------------------------------------

  lemma NormalizedAreLast(users: seq<User>, u: User)
    ensures u in Normalized(users) <==> LastOfItsEmail(users, u)
  {
    if LastOfItsEmail(users, u) {
      var i :| LastAt(users, i, u);
      assert u in users;
    }
  }

  lemma WantedIsAsked(iface: Interface, users: seq<User>, desired: map<string, DesiredPeer>, t: string)
    requires Wants(iface, users, desired) && t in desired
    ensures AsksFor(iface, users, TargetOf(desired[t]))
  {
    CollectsExactly(iface, Normalized(users), desired);
    var u :| u in Normalized(users) && Gets(iface, u, desired[t]) && desired[t].publicKey == t;
    NormalizedAreLast(users, u);
    assert IsPeerOf(iface, u, TargetOf(desired[t]));
  }

  lemma AskedIsWanted(iface: Interface, users: seq<User>, desired: map<string, DesiredPeer>, u: User)
    returns (t: string)
    requires Wants(iface, users, desired) && LastOfItsEmail(users, u) && GetsPeer(iface, u)
    ensures t in desired && IsPeerOf(iface, u, TargetOf(desired[t]))
  {
    CollectsExactly(iface, Normalized(users), desired);
    NormalizedAreLast(users, u);
    t := u.proxies.value.wireguard.value.publicKey;
  }

  /** A store of the wanted peers and no others, for one text a key. */
  lemma StoredAsWanted(iface: Interface, users: seq<User>, desired: map<string, DesiredPeer>, peers: Peers)
    requires Wants(iface, users, desired) && OneTextAKey(desired)
    requires forall k :: k in Targets(Respelt(desired)) ==> k in peers && peers[k] == Targets(Respelt(desired))[k]
    ensures AllStored(iface, users, peers)
  {
    forall u | LastOfItsEmail(users, u) && GetsPeer(iface, u) ensures HasPeer(iface, u, peers) {
      var t := AskedIsWanted(iface, users, desired, u);
      RespeltAt(desired, t);
      assert IsPeerOf(iface, u, peers[desired[t].parsedKey]);
    }
  }

  // ---- startup and full sync ----------------------------------------------

  lemma ListedAreTargets(desired: map<string, DesiredPeer>, list: seq<PeerInfo>, peer: PeerInfo) returns (t: string)
    requires ListsPeers(Targets(desired), list) && peer in list
    ensures t in desired && peer == TargetOf(desired[t])
  {
    var texts :| Lists(texts, Targets(desired).Keys) && PeersOf(Targets(desired), texts, list);
    var i :| 0 <= i < |list| && list[i] == peer;
    t := texts[i];
  }

  /** A replaced store holds only peers the request asks for, and with one text a key all of them. */
  lemma ReplacedStoresAsked(iface: Interface, users: seq<User>, desired: map<string, DesiredPeer>, s': State)
    requires Wants(iface, users, desired) && Replaced(desired, s')
    ensures OnlyAsked(iface, users, s'.peers)
    ensures OneTextAKey(desired) ==> AllStored(iface, users, s'.peers)
  {
    var list, cs :| ReplacedWith(desired, s', list, cs);
    ByKeyMembers(list);
    forall k | k in s'.peers ensures AsksFor(iface, users, s'.peers[k]) {
      var t := ListedAreTargets(desired, list, s'.peers[k]);
      WantedIsAsked(iface, users, desired, t);
    }
    if OneTextAKey(desired) {
      ReplacedIsGood(desired, s');
      StoredAsWanted(iface, users, desired, s'.peers);
    }
  }

  /** After a full sync the store holds only peers of the request's assigned users, all of them with one text a key. */
  lemma FullStoresAsked(iface: Interface, s: State, users: seq<User>, desired: map<string, DesiredPeer>, diff: SyncDiff,
                        s': State)
    requires SoundStore(s.peers) && FullDone(iface, s, users, desired, diff, s')
    ensures OnlyAsked(iface, users, s'.peers)
    ensures OneTextAKey(desired) ==> AllStored(iface, users, s'.peers)
  {
    if diff.changed {
      ReplacedStoresAsked(iface, users, desired, s');
    } else {
      UnchangedExactly(s.peers, desired, diff);
      StoredTargetsAreCanonical(s.peers, desired);
      forall k | k in s'.peers ensures AsksFor(iface, users, s'.peers[k]) {
        WantedIsAsked(iface, users, desired, k);
      }
      StoredAsWanted(iface, users, desired, s'.peers);
    }
  }

  /** The same after startup. */
  lemma StartStoresAsked(iface: Interface, users: seq<User>, s': State)
    requires Started(iface, users, s')
    ensures OnlyAsked(iface, users, s'.peers)
    ensures Unambiguous(iface, users) ==> AllStored(iface, users, s'.peers)
  {
    var desired :| Wants(iface, users, desired) && Replaced(desired, s');
    ReplacedStoresAsked(iface, users, desired, s');
  }

  // ---- partial sync -------------------------------------------------------

  /** A peer in a store after upserts is an upserted one, or was there and no upsert has its key. */
  lemma {:induction false} UpsertedOrKept(peers: Peers, ups: seq<PeerInfo>, k: Key)
    requires k in UpsertedAll(peers, ups)
    ensures UpsertedAll(peers, ups)[k] in ups ||
            (k in peers && UpsertedAll(peers, ups)[k] == peers[k] && forall u :: u in ups ==> u.publicKey != k)
  {
    if ups != [] {
      var init, last := ups[..|ups| - 1], ups[|ups| - 1];
      assert ups == init + [last];
      if k != last.publicKey {
        UpsertedOrKept(peers, init, k);
      }
    }
  }

  lemma UpsertsAreTargets(existing: Peers, desired: map<string, DesiredPeer>, diff: SyncDiff, peer: PeerInfo)
    returns (t: string)
    requires IsDiff(existing, desired, diff) && peer in diff.upsertPeers
    ensures t in desired && peer == TargetOf(desired[t])
  {
    var upserted, configured :| DiffInOrder(existing, Targets(desired), diff, upserted, configured);
    var i :| 0 <= i < |diff.upsertPeers| && diff.upsertPeers[i] == peer;
    t := upserted[i];
  }

  lemma NotUpserted(target: Peers, upserted: seq<string>, ups: seq<PeerInfo>, k: Key)
    requires PeersOf(target, upserted, ups) && k in target && target[k].publicKey == k
    requires forall u :: u in ups ==> u.publicKey != k
    ensures k !in Elements(upserted)
  {
    assert forall i :: 0 <= i < |upserted| ==> ups[i] in ups;
  }

  /** A stored peer the diff neither removes nor upserts is already as desired. */
  lemma KeptIsTarget(existing: Peers, desired: map<string, DesiredPeer>, diff: SyncDiff, k: Key)
    requires WellCollected(desired) && IsDiff(existing, desired, diff)
    requires k in existing && existing[k].publicKey == k && ParseKey(k) == Some(k)
    requires k !in diff.removeKeys && forall u :: u in diff.upsertPeers ==> u.publicKey != k
    ensures k in desired && existing[k] == TargetOf(desired[k])
  {
    var upserted, configured :| DiffInOrder(existing, Targets(desired), diff, upserted, configured);
    assert k !in Elements(diff.removeKeys) && k !in RemoveTexts(existing, Targets(desired));
    assert k in desired && desired[k].parsedKey == k;
    NotUpserted(Targets(desired), upserted, diff.upsertPeers, k);
  }

  /** The stored peer of a touched email is one the request asks for. */
  lemma TouchedIsAsked(iface: Interface, s: State, users: seq<User>, desired: map<string, DesiredPeer>, diff: SyncDiff,
                       s': State, k: Key)
    requires SoundStore(s.peers) && PartialDone(iface, s, users, desired, diff, s')
    requires k in s'.peers && s'.peers[k].email in Touched(users)
    ensures AsksFor(iface, users, s'.peers[k])
  {
    var existing := TouchedPart(s.peers, Touched(users));
    UpsertedOrKept(s.peers - Elements(diff.removeKeys), diff.upsertPeers, k);
    if s'.peers[k] in diff.upsertPeers {
      var t := UpsertsAreTargets(existing, desired, diff, s'.peers[k]);
      WantedIsAsked(iface, users, desired, t);
    } else {
      KeptIsTarget(existing, desired, diff, k);
      WantedIsAsked(iface, users, desired, k);
    }
  }

  /**
   * After a partial sync, however it spells keys, every stored peer of an email it touches is that of an assigned user
   * of the request; if no key has two texts and no stored key another text, all of those users have theirs.
   */
  lemma PartialStoresAsked(iface: Interface, s: State, users: seq<User>, desired: map<string, DesiredPeer>,
                           diff: SyncDiff, s': State)
    requires SoundStore(s.peers) && PartialDone(iface, s, users, desired, diff, s')
    ensures forall k :: k in s'.peers && s'.peers[k].email in Touched(users) ==> AsksFor(iface, users, s'.peers[k])
    ensures NoStoredAlias(s.peers, desired) && OneTextAKey(desired) ==> AllStored(iface, users, s'.peers)
  {
    forall k | k in s'.peers && s'.peers[k].email in Touched(users) ensures AsksFor(iface, users, s'.peers[k]) {
      TouchedIsAsked(iface, s, users, desired, diff, s', k);
    }
    if NoStoredAlias(s.peers, desired) && OneTextAKey(desired) {
      PartialReconciles(iface, s, users, desired, diff, s');
      StoredAsWanted(iface, users, desired, s'.peers);
    }
  }

  // ---- one user -----------------------------------------------------------

  lemma OneLastAnEmail(users: seq<User>, u: User, v: User)
    requires LastOfItsEmail(users, u) && LastOfItsEmail(users, v) && u.email == v.email
    ensures u == v
  {
    var i :| LastAt(users, i, u);
    var j :| LastAt(users, j, v);
  }

  /** So the stored peer of a request's user is that user's own, and the user is assigned to the interface. */
  lemma StoredPeerIsItsUsers(iface: Interface, users: seq<User>, peers: Peers, u: User, k: Key)
    requires LastOfItsEmail(users, u) && k in peers && peers[k].email == u.email
    requires forall j :: j in peers && peers[j].email in Touched(users) ==> AsksFor(iface, users, peers[j])
    ensures iface.name in u.inbounds && IsPeerOf(iface, u, peers[k])
  {
    NormalizedAreLast(users, u);
    var v :| LastOfItsEmail(users, v) && IsPeerOf(iface, v, peers[k]);
    OneLastAnEmail(users, u, v);
  }

  // ---- every run ----------------------------------------------------------

  /** The users of a step's request. */
  function RequestOf(op: Op): seq<User> {
    match op case Partial(users) => users case Full(users) => users case Restart => []
  }

  /** Some request up to the `n`th step asks for the peer. */
  ghost predicate AskedBy(iface: Interface, users: seq<User>, ops: seq<Op>, n: nat, peer: PeerInfo)
    requires n <= |ops|
  {
    AsksFor(iface, users, peer) || exists i :: 0 <= i < n && AsksFor(iface, RequestOf(ops[i]), peer)
  }

  lemma StepStoresAsked(iface: Interface, s: State, op: Op, s': State, k: Key)
    requires Step(iface, s, op, s') && k in s'.peers
    ensures AsksFor(iface, RequestOf(op), s'.peers[k]) || (k in s.peers && s'.peers[k] == s.peers[k])
  {
    match op
    case Restart =>
    case Partial(users) =>
      if s' != s {
        var desired, diff :| PartialDone(iface, s, users, desired, diff, s');
        UpsertedOrKept(s.peers - Elements(diff.removeKeys), diff.upsertPeers, k);
        if s'.peers[k] in diff.upsertPeers {
          var t := UpsertsAreTargets(TouchedPart(s.peers, Touched(users)), desired, diff, s'.peers[k]);
          WantedIsAsked(iface, users, desired, t);
        }
      }
    case Full(users) =>
      if s' != s {
        var desired, diff :| FullDone(iface, s, users, desired, diff, s');
        ReplacedStoresAsked(iface, users, desired, s');
      }
  }

  /** In every state of every run each stored peer is that of an assigned user of the startup or an earlier request. */
  lemma {:induction false} StoredWasAsked(iface: Interface, users: seq<User>, ops: seq<Op>, states: seq<State>, n: nat,
                                          k: Key)
    requires IsRun(iface, users, ops, states) && n <= |ops| && k in states[n].peers
    ensures AskedBy(iface, users, ops, n, states[n].peers[k])
  {
    if n == 0 {
      StartStoresAsked(iface, users, states[0]);
    } else {
      var s, op, s' := states[n - 1], ops[n - 1], states[n - 1 + 1];
      assert Step(iface, s, op, s');
      StepStoresAsked(iface, s, op, s', k);
      if k in s.peers && s'.peers[k] == s.peers[k] {
        StoredWasAsked(iface, users, ops, states, n - 1, k);
      }
    }
  }
}
