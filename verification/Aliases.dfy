/** What a partial sync does with texts that are not the store's own, exactly. */
module Aliases {
  import opened Base
  import opened Keys
  import opened Networks
  import opened DesiredPeers
  import opened PeerStores
  import opened Devices
  import opened SyncDiffs
  import opened Reconcile
  import opened Spellings

  /** A request's emails are touched, and so are the owners of the stored texts it mentions. */
  ghost predicate Owned(peers: Peers, touched: set<string>, desired: map<string, DesiredPeer>) {
    && (forall t :: t in desired ==> desired[t].email in touched)
    && (forall t :: t in desired && t in peers && peers[t].email != desired[t].email ==> peers[t].email in touched)
  }

  ghost function StoreAfter(peers: Peers, diff: SyncDiff): Peers {
    UpsertedAll(peers - Elements(diff.removeKeys), diff.upsertPeers)
  }

  // ---- one text a key -----------------------------------------------------

  lemma RespeltIsAdmissible(peers: Peers, touched: set<string>, desired: map<string, DesiredPeer>)
    requires NoStoredAlias(peers, desired) && Owned(peers, touched, desired)
    ensures Admissible(peers, touched, Respelt(desired))
  {
    forall k | k in Respelt(desired) && k in peers ensures peers[k].email in touched {
      assert TextOf(desired, k) == k;
    }
  }

  lemma SamePrefixes(peers: Peers, touched: set<string>, desired: map<string, DesiredPeer>)
    requires OneTextAKey(desired)
    ensures LeavesOthersAlone(peers, touched, Respelt(desired)) <==> LeavesOthersAlone(peers, touched, desired)
  {
    forall t | t in desired
      ensures desired[t].parsedKey in Respelt(desired)
      ensures Respelt(desired)[desired[t].parsedKey].allowedIPNets == desired[t].allowedIPNets
    {
      RespeltAt(desired, t);
    }
    forall k | k in Respelt(desired)
      ensures TextOf(desired, k) in desired &&
              desired[TextOf(desired, k)].allowedIPNets == Respelt(desired)[k].allowedIPNets
    {
    }
  }

  /** With one text a key and no other text for a stored key, all goes as for the canonical spelling. */
  lemma OneTextIsExact(peers: Peers, touched: set<string>, desired: map<string, DesiredPeer>, diff: SyncDiff, d: Device)
    requires SoundStore(peers) && Agree(peers, d) && WellCollected(desired) && Owned(peers, touched, desired)
    requires IsDiff(TouchedPart(peers, touched), desired, diff)
    requires OneTextAKey(desired) && NoStoredAlias(peers, desired)
    ensures SoundStore(StoreAfter(peers, diff)) && OthersKept(peers, touched, StoreAfter(peers, diff))
    ensures Agree(StoreAfter(peers, diff), ConfigureAll(d, diff.peerConfigs)) <==>
            LeavesOthersAlone(peers, touched, desired)
  {
    var canon := Respelt(desired);
    var diff', after := diff.(targetPeers := Targets(canon)), StoreAfter(peers, diff);
    RespeltIsCanonical(desired);
    RespeltIsAdmissible(peers, touched, desired);
    DiffRespelt(TouchedPart(peers, touched), desired, diff);
    CommitReconciles(peers, touched, canon, diff');
    ReconciledIsSound(peers, touched, canon, after);
    DiffIsApplied(peers, touched, canon, diff', d);
    PartialAgreement(peers, touched, canon, after, d, Elements(diff.peerConfigs), ConfigureAll(d, diff.peerConfigs));
    SamePrefixes(peers, touched, desired);
  }

  // ---- where a prefix ends ------------------------------------------------

  /** Nothing later clears the owner or gives the prefix to another. */
  ghost predicate Undisturbed(c: PeerConfig, k: Key, p: Prefix) {
    if c.publicKey == k then !c.Clears() else !c.Grants(p)
  }

  lemma {:induction false} OwnerStays(d: Device, cs: seq<PeerConfig>, n: nat, k: Key, p: Prefix)
    requires n <= |cs| && ConfigureAll(d, cs[..n]).Owner(p) == Some(k)
    requires forall j :: n <= j < |cs| ==> Undisturbed(cs[j], k, p)
    ensures ConfigureAll(d, cs).Owner(p) == Some(k)
  {
    if n == |cs| {
      assert cs[..n] == cs;
    } else {
      var init := cs[..|cs| - 1];
      assert init[..n] == cs[..n];
      OwnerStays(d, init, n, k, p);
      assert Undisturbed(cs[|cs| - 1], k, p);
    }
  }

  /** A configuration of the diff that disturbs a prefix of `u` is the one built from `u`, or removes its key. */
  lemma OnlyOwnConfig(existing: Peers, desired: map<string, DesiredPeer>, diff: SyncDiff, upserted: seq<string>,
                      configured: seq<string>, u: string, p: Prefix, j: nat)
    requires SoundStore(existing) && WellCollected(desired)
    requires DiffInOrder(existing, Targets(desired), diff, upserted, configured)
    requires u in desired && p in desired[u].allowedIPNets && j < |diff.peerConfigs|
    requires desired[u].parsedKey in existing ==> desired[u].parsedKey in desired
    requires j < |configured| ==> configured[j] != u && (configured[j] in existing ==> u in existing)
    ensures Undisturbed(diff.peerConfigs[j], desired[u].parsedKey, p)
  {
    var n := |configured|;
    if j < n {
      assert diff.peerConfigs[..n][j] == diff.peerConfigs[j];
      assert configured[j] in Elements(configured);
    } else {
      assert diff.peerConfigs[n..][j - n] == diff.peerConfigs[j];
      assert diff.removeKeys[j - n] in Elements(diff.removeKeys);
    }
  }

  lemma GrantTakes(d: Device, cs: seq<PeerConfig>, i: nat, p: Prefix)
    requires i < |cs| && cs[i].Grants(p)
    ensures ConfigureAll(d, cs[..i + 1]).Owner(p) == Some(cs[i].publicKey)
  {
    assert cs[..i + 1][..i] == cs[..i];
  }

  lemma ConfiguredReaches(existing: Peers, desired: map<string, DesiredPeer>, diff: SyncDiff, upserted: seq<string>,
                          configured: seq<string>, d: Device, i: nat, p: Prefix)
    requires SoundStore(existing) && WellCollected(desired)
    requires DiffInOrder(existing, Targets(desired), diff, upserted, configured)
    requires i < |configured| && p in desired[configured[i]].allowedIPNets
    requires desired[configured[i]].parsedKey in existing ==> desired[configured[i]].parsedKey in desired
    ensures ConfigureAll(d, diff.peerConfigs).Owner(p) == Some(desired[configured[i]].parsedKey)
  {
    var cs, u := diff.peerConfigs, configured[i];
    forall j: nat | i + 1 <= j < |cs| ensures Undisturbed(cs[j], desired[u].parsedKey, p) {
      OnlyOwnConfig(existing, desired, diff, upserted, configured, u, p, j);
    }
    assert cs[..|configured|][i] == cs[i];
    GrantTakes(d, cs, i, p);
    OwnerStays(d, cs, i + 1, desired[u].parsedKey, p);
  }

  lemma StoredReaches(existing: Peers, desired: map<string, DesiredPeer>, diff: SyncDiff, upserted: seq<string>,
                      configured: seq<string>, d: Device, u: string, p: Prefix)
    requires SoundStore(existing) && WellCollected(desired)
    requires DiffInOrder(existing, Targets(desired), diff, upserted, configured)
    requires u in desired && p in desired[u].allowedIPNets && u in existing && u !in configured
    requires d.Owner(p) == Some(u)
    ensures ConfigureAll(d, diff.peerConfigs).Owner(p) == Some(u)
  {
    var cs := diff.peerConfigs;
    assert desired[u].parsedKey == u;
    forall j: nat | j < |cs| ensures Undisturbed(cs[j], u, p) {
      OnlyOwnConfig(existing, desired, diff, upserted, configured, u, p, j);
    }
    OwnerStays(d, cs, 0, u, p);
  }

  /** Every prefix asked for under a text ends with that text's key, unless the key is removed. */
  lemma PrefixReaches(existing: Peers, desired: map<string, DesiredPeer>, diff: SyncDiff, upserted: seq<string>,
                      configured: seq<string>, d: Device, u: string, p: Prefix)
    requires SoundStore(existing) && WellCollected(desired)
    requires DiffInOrder(existing, Targets(desired), diff, upserted, configured)
    requires u in desired && p in desired[u].allowedIPNets
    requires desired[u].parsedKey in existing ==> desired[u].parsedKey in desired
    requires u in existing && p in existing[u].allowedIPs ==> d.Owner(p) == Some(u)
    ensures ConfigureAll(d, diff.peerConfigs).Owner(p) == Some(desired[u].parsedKey)
  {
    if u in configured {
      var i :| 0 <= i < |configured| && configured[i] == u;
      ConfiguredReaches(existing, desired, diff, upserted, configured, d, i, p);
    } else {
      UnconfiguredIsStored(existing, desired, configured, u);
      StoredReaches(existing, desired, diff, upserted, configured, d, u, p);
    }
  }

  lemma UnconfiguredIsStored(existing: Peers, desired: map<string, DesiredPeer>, configured: seq<string>, u: string)
    requires SoundStore(existing) && WellCollected(desired) && u in desired && u !in configured
    requires Elements(configured) == ConfigTexts(existing, Targets(desired))
    ensures u in existing && existing[u].allowedIPs == desired[u].allowedIPNets && desired[u].parsedKey == u
  {
    assert u !in Elements(configured);
    assert !NeedsConfig(existing, Targets(desired), u);
  }

  // ---- what the store keeps under a key -----------------------------------

  lemma {:induction false} UpsertStays(peers: Peers, ups: seq<PeerInfo>, u: PeerInfo)
    requires Filed(peers) && u in ups && forall i, j :: 0 <= i < j < |ups| ==> ups[i].email != ups[j].email
    ensures u.publicKey in UpsertedAll(peers, ups) && UpsertedAll(peers, ups)[u.publicKey] in ups
  {
    var init, last := ups[..|ups| - 1], ups[|ups| - 1];
    assert ups == init + [last];
    if u in init {
      UpsertStays(peers, init, u);
    }
  }

  /** Under the key of a text that is not stored, the store ends with a peer asked for under that key. */
  lemma StoredUnder(kept: Peers, existing: Peers, desired: map<string, DesiredPeer>, diff: SyncDiff,
                    upserted: seq<string>, configured: seq<string>, t: string) returns (u: string)
    requires Filed(kept) && WellCollected(desired)
    requires DiffInOrder(existing, Targets(desired), diff, upserted, configured)
    requires t in desired && t !in existing
    ensures u in desired && desired[u].parsedKey == desired[t].parsedKey
    ensures var after := UpsertedAll(kept, diff.upsertPeers);
            desired[t].parsedKey in after && after[desired[t].parsedKey] == TargetOf(desired[u])
  {
    var ups, k := diff.upsertPeers, desired[t].parsedKey;
    assert NeedsUpsert(existing, Targets(desired), t);
    assert t in Elements(upserted);
    var i :| 0 <= i < |upserted| && upserted[i] == t;
    UpsertEmailsDiffer(desired, upserted, ups);
    UpsertStays(kept, ups, ups[i]);
    UpsertedAllStaysFiled(kept, ups);
    var j :| 0 <= j < |ups| && ups[j] == UpsertedAll(kept, ups)[k];
    u := upserted[j];
  }

  lemma UpsertEmailsDiffer(desired: map<string, DesiredPeer>, upserted: seq<string>, ups: seq<PeerInfo>)
    requires WellCollected(desired) && NoDuplicates(upserted) && PeersOf(Targets(desired), upserted, ups)
    ensures forall i, j :: 0 <= i < j < |ups| ==> ups[i].email != ups[j].email
  {
  }

  // ---- the failing shapes -------------------------------------------------

  /** Another text for the key of an untouched email takes its peer away: the ownership check compares texts. */
  lemma AliasTakesOthersPeer(peers: Peers, touched: set<string>, desired: map<string, DesiredPeer>, diff: SyncDiff,
                             t: string)
    requires SoundStore(peers) && WellCollected(desired) && Owned(peers, touched, desired)
    requires IsDiff(TouchedPart(peers, touched), desired, diff)
    requires t in desired && desired[t].parsedKey != t && desired[t].parsedKey in peers
    requires peers[desired[t].parsedKey].email !in touched
    ensures !OthersKept(peers, touched, StoreAfter(peers, diff))
  {
    var existing, k := TouchedPart(peers, touched), desired[t].parsedKey;
    var upserted, configured :| DiffInOrder(existing, Targets(desired), diff, upserted, configured);
    assert t !in existing;
    var u := StoredUnder(peers - Elements(diff.removeKeys), existing, desired, diff, upserted, configured, t);
  }

  /** Two texts of one key: the kernel has the prefixes of both, the store those of one. */
  lemma TwoTextsDisagree(peers: Peers, touched: set<string>, desired: map<string, DesiredPeer>, diff: SyncDiff,
                         d: Device, s: string, t: string)
    requires SoundStore(peers) && Agree(peers, d) && WellCollected(desired)
    requires IsDiff(TouchedPart(peers, touched), desired, diff)
    requires s in desired && t in desired && s != t && desired[s].parsedKey == desired[t].parsedKey &&
             desired[t].parsedKey != t
    requires desired[t].parsedKey in peers ==> desired[t].parsedKey in desired
    ensures !Agree(StoreAfter(peers, diff), ConfigureAll(d, diff.peerConfigs))
  {
    var existing, k := TouchedPart(peers, touched), desired[t].parsedKey;
    var upserted, configured :| DiffInOrder(existing, Targets(desired), diff, upserted, configured);
    assert t !in existing;
    var u := StoredUnder(peers - Elements(diff.removeKeys), existing, desired, diff, upserted, configured, t);
    var w := if u == s then t else s;
    var p := desired[w].allowedIPNets[0];
    PrefixReaches(existing, desired, diff, upserted, configured, d, w, p);
    assert p !in desired[u].allowedIPNets;
  }

  lemma {:induction false} RemovedLastStaysOut(d: Device, cs: seq<PeerConfig>, n: nat, i: nat)
    requires n <= i < |cs| && forall j :: n <= j < |cs| ==> cs[j].remove
    ensures cs[i].publicKey !in ConfigureAll(d, cs).peers
  {
    if i < |cs| - 1 {
      RemovedLastStaysOut(d, cs[..|cs| - 1], n, i);
    }
  }

  lemma RemovalAt(cs: seq<PeerConfig>, n: nat, texts: seq<string>, j: nat)
    requires n <= j < |cs| && RemovalsOf(texts, cs[n..])
    ensures cs[j].remove && ParseKey(texts[j - n]) == Some(cs[j].publicKey)
  {
    assert cs[n..][j - n] == cs[j];
  }

  lemma RemovedFromKernel(existing: Peers, target: Peers, diff: SyncDiff, upserted: seq<string>,
                          configured: seq<string>, k: Key, d: Device)
    requires DiffInOrder(existing, target, diff, upserted, configured)
    requires k in existing && k !in target && ParseKey(k) == Some(k)
    ensures k !in ConfigureAll(d, diff.peerConfigs).peers
  {
    var cs, n := diff.peerConfigs, |configured|;
    assert k in Elements(diff.removeKeys);
    var i :| 0 <= i < |diff.removeKeys| && diff.removeKeys[i] == k;
    forall j | n <= j < |cs| ensures cs[j].remove {
      RemovalAt(cs, n, diff.removeKeys, j);
    }
    RemovalAt(cs, n, diff.removeKeys, n + i);
    RemovedLastStaysOut(d, cs, n, n + i);
  }

  /** A touched email's stored key under another text only: it leaves the kernel and stays in the store. */
  lemma AliasLeavesKernel(peers: Peers, touched: set<string>, desired: map<string, DesiredPeer>, diff: SyncDiff,
                          d: Device, t: string)
    requires SoundStore(peers) && WellCollected(desired) && IsDiff(TouchedPart(peers, touched), desired, diff)
    requires t in desired && desired[t].parsedKey != t && desired[t].parsedKey !in desired
    requires desired[t].parsedKey in peers && peers[desired[t].parsedKey].email in touched
    ensures desired[t].parsedKey in StoreAfter(peers, diff)
    ensures desired[t].parsedKey !in ConfigureAll(d, diff.peerConfigs).peers
  {
    var existing, k := TouchedPart(peers, touched), desired[t].parsedKey;
    var upserted, configured :| DiffInOrder(existing, Targets(desired), diff, upserted, configured);
    RemovedFromKernel(existing, Targets(desired), diff, upserted, configured, k, d);
    assert t !in existing;
    var u := StoredUnder(peers - Elements(diff.removeKeys), existing, desired, diff, upserted, configured, t);
  }

  // ---- exactly ------------------------------------------------------------

  lemma GoodNeedsOneText(peers: Peers, touched: set<string>, desired: map<string, DesiredPeer>, diff: SyncDiff,
                         d: Device)
    requires SoundStore(peers) && Agree(peers, d) && WellCollected(desired) && Owned(peers, touched, desired)
    requires IsDiff(TouchedPart(peers, touched), desired, diff)
    requires Agree(StoreAfter(peers, diff), ConfigureAll(d, diff.peerConfigs))
    requires OthersKept(peers, touched, StoreAfter(peers, diff))
    ensures NoStoredAlias(peers, desired) && OneTextAKey(desired)
  {
    forall t | t in desired && desired[t].parsedKey in peers ensures desired[t].parsedKey == t {
      var k := desired[t].parsedKey;
      if k != t {
        if peers[k].email !in touched {
          AliasTakesOthersPeer(peers, touched, desired, diff, t);
        } else if k !in desired {
          AliasLeavesKernel(peers, touched, desired, diff, d, t);
        } else {
          TwoTextsDisagree(peers, touched, desired, diff, d, k, t);
        }
      }
    }
    forall s, t | s in desired && t in desired && desired[s].parsedKey == desired[t].parsedKey ensures s == t {
      if s != t {
        if desired[t].parsedKey != t {
          TwoTextsDisagree(peers, touched, desired, diff, d, s, t);
        } else {
          TwoTextsDisagree(peers, touched, desired, diff, d, t, s);
        }
      }
    }
  }

  /**
   * For any spelling, from agreement: store and kernel agree again and every other email keeps its peer, if and only
   * if the request asks for no prefix of an untouched peer, for no stored key by another text, and for no key twice.
   */
  lemma PartialExactly(peers: Peers, touched: set<string>, desired: map<string, DesiredPeer>, diff: SyncDiff, d: Device)
    requires SoundStore(peers) && Agree(peers, d) && WellCollected(desired) && Owned(peers, touched, desired)
    requires IsDiff(TouchedPart(peers, touched), desired, diff)
    ensures Agree(StoreAfter(peers, diff), ConfigureAll(d, diff.peerConfigs)) &&
            OthersKept(peers, touched, StoreAfter(peers, diff)) <==>
            LeavesOthersAlone(peers, touched, desired) && NoStoredAlias(peers, desired) && OneTextAKey(desired)
  {
    if Agree(StoreAfter(peers, diff), ConfigureAll(d, diff.peerConfigs)) &&
       OthersKept(peers, touched, StoreAfter(peers, diff)) {
      GoodNeedsOneText(peers, touched, desired, diff, d);
    }
    if NoStoredAlias(peers, desired) && OneTextAKey(desired) {
      OneTextIsExact(peers, touched, desired, diff, d);
    }
  }
}
