/** The difference between stored and desired peers, and the kernel configurations it turns into. */
module SyncDiffs {
  import opened Base
  import opened Keys
  import opened Networks
  import opened DesiredPeers
  import opened PeerStores
  import opened Devices

  function TargetOf(d: DesiredPeer): PeerInfo {
    PeerInfo(d.email, d.parsedKey, d.allowedIPNets)
  }

  /** The target peers, under the key texts the request used. */
  function Targets(desired: map<string, DesiredPeer>): Peers {
    map s | s in desired :: TargetOf(desired[s])
  }

  datatype SyncDiff = SyncDiff(
    removeKeys: seq<string>,
    upsertPeers: seq<PeerInfo>,
    peerConfigs: seq<PeerConfig>,
    targetPeers: Peers,
    changed: bool)

  /** buildAddConfigFromPeerInfo: a peer without allowed IPs is an error. */
  function AddConfig(peer: PeerInfo): Option<PeerConfig> {
    if peer.allowedIPs == [] then None else Some(PeerConfig(peer.publicKey, false, false, peer.allowedIPs))
  }

  /** A stored peer's networks change, or the peer is new. */
  predicate Reroutes(existing: Peers, target: Peers, s: string) {
    s in target && (s in existing ==> existing[s].allowedIPs != target[s].allowedIPs)
  }

  predicate NeedsConfig(existing: Peers, target: Peers, s: string) {
    Reroutes(existing, target, s) && target[s].allowedIPs != []
  }

  predicate NeedsUpsert(existing: Peers, target: Peers, s: string) {
    && s in target
    && (s in existing ==> existing[s].allowedIPs != target[s].allowedIPs || existing[s].email != target[s].email)
    && (Reroutes(existing, target, s) ==> target[s].allowedIPs != [])
  }

  predicate NeedsRemoval(existing: Peers, target: Peers, s: string) {
    s in existing && s !in target && ParseKey(s).Some?
  }

  /** The configuration of one target: a stored peer's old networks are replaced. */
  function ConfigFor(existing: Peers, target: Peers, s: string): PeerConfig
    requires s in target
  {
    PeerConfig(target[s].publicKey, false, s in existing, target[s].allowedIPs)
  }

  function RemoveConfig(s: string): PeerConfig
    requires ParseKey(s).Some?
  {
    PeerConfig(ParseKey(s).value, true, false, [])
  }

  /** `texts` lists the wanted texts, once each and in any order. */
  ghost predicate Lists(texts: seq<string>, wanted: set<string>) {
    NoDuplicates(texts) && Elements(texts) == wanted
  }

  function UpsertTexts(existing: Peers, target: Peers): set<string> {
    set s | s in target && NeedsUpsert(existing, target, s)
  }

  function ConfigTexts(existing: Peers, target: Peers): set<string> {
    set s | s in target && NeedsConfig(existing, target, s)
  }

  function RemoveTexts(existing: Peers, target: Peers): set<string> {
    set s | s in existing && NeedsRemoval(existing, target, s)
  }

  ghost predicate PeersOf(target: Peers, texts: seq<string>, peers: seq<PeerInfo>) {
    |peers| == |texts| && forall i :: 0 <= i < |texts| ==> texts[i] in target && peers[i] == target[texts[i]]
  }

  ghost predicate ConfigsOf(existing: Peers, target: Peers, texts: seq<string>, configs: seq<PeerConfig>) {
    |configs| == |texts| &&
    forall i :: 0 <= i < |texts| ==> texts[i] in target && configs[i] == ConfigFor(existing, target, texts[i])
  }

  ghost predicate RemovalsOf(texts: seq<string>, configs: seq<PeerConfig>) {
    |configs| == |texts| &&
    forall i :: 0 <= i < |texts| ==> ParseKey(texts[i]).Some? && configs[i] == RemoveConfig(texts[i])
  }

  /** Changes of stored peers are sent before new peers. */
  ghost predicate StoredFirst(existing: Peers, texts: seq<string>) {
    forall i, j :: 0 <= i < j < |texts| && texts[j] in existing ==> texts[i] in existing
  }

  /** The diff for one order of visiting the maps: changed peers come first, then new ones, removals last. */
  ghost predicate DiffInOrder(existing: Peers, target: Peers, diff: SyncDiff, upserted: seq<string>,
                              configured: seq<string>) {
    && diff.targetPeers == target
    && (diff.changed <==> diff.removeKeys != [] || diff.upsertPeers != [])
    && Lists(upserted, UpsertTexts(existing, target)) && PeersOf(target, upserted, diff.upsertPeers)
    && Lists(configured, ConfigTexts(existing, target)) && Lists(diff.removeKeys, RemoveTexts(existing, target))
    && |configured| <= |diff.peerConfigs|
    && StoredFirst(existing, configured)
    && ConfigsOf(existing, target, configured, diff.peerConfigs[..|configured|])
    && RemovalsOf(diff.removeKeys, diff.peerConfigs[|configured|..])
  }

  /** The diff, whatever order the maps were visited in. */
  ghost predicate IsDiff(existing: Peers, desired: map<string, DesiredPeer>, diff: SyncDiff) {
    exists upserted, configured :: DiffInOrder(existing, Targets(desired), diff, upserted, configured)
  }

  // ---- buildSyncDiff ------------------------------------------------------

  /** buildRemoveConfigsForPeers: a key that does not parse is left alone. */
  method BuildRemoveConfigs(removeSet: set<string>) returns (validRemoveKeys: seq<string>, configs: seq<PeerConfig>)
    ensures Lists(validRemoveKeys, set s | s in removeSet && ParseKey(s).Some?)
    ensures RemovalsOf(validRemoveKeys, configs)
  {
    var order := Enumerate(removeSet);
    validRemoveKeys, configs := [], [];
    for i := 0 to |order|
      invariant NoDuplicates(validRemoveKeys) && RemovalsOf(validRemoveKeys, configs)
      invariant forall s :: s in validRemoveKeys <==> s in order[..i] && ParseKey(s).Some?
    {
      var key := order[i];
      assert key !in order[..i];
      var parsed := ParseKey(key);
      if parsed.Some? {
        configs := configs + [PeerConfig(parsed.value, true, false, [])];
        validRemoveKeys := validRemoveKeys + [key];
      }
    }
    assert forall s :: s in Elements(order) <==> s in removeSet;
  }

  /** The state of the two visiting loops once the texts in `done` have been seen. */
  ghost predicate Built(existing: Peers, target: Peers, done: set<string>, upsertByKey: map<string, PeerInfo>,
                        configs: seq<PeerConfig>, texts: seq<string>)
  {
    && upsertByKey.Keys == UpsertTexts(existing, target) * done
    && (forall s :: s in upsertByKey ==> s in target && upsertByKey[s] == target[s])
    && Lists(texts, ConfigTexts(existing, target) * done)
    && StoredFirst(existing, texts)
    && ConfigsOf(existing, target, texts, configs)
  }

  /** A visited text adds its upsert and its configuration if it needs them. */
  lemma Visit(existing: Peers, target: Peers, done: set<string>, upsertByKey: map<string, PeerInfo>,
              configs: seq<PeerConfig>, texts: seq<string>, s: string)
    requires Built(existing, target, done, upsertByKey, configs, texts) && s !in done
    requires s in existing ==> done <= existing.Keys
    ensures var up := if NeedsUpsert(existing, target, s) then upsertByKey[s := target[s]] else upsertByKey;
            if NeedsConfig(existing, target, s)
            then Built(existing, target, done + {s}, up, configs + [ConfigFor(existing, target, s)], texts + [s])
            else Built(existing, target, done + {s}, up, configs, texts)
  {
    assert s !in Elements(texts);
    if NeedsConfig(existing, target, s) {
      assert Elements(texts + [s]) == Elements(texts) + {s};
      assert forall i :: 0 <= i < |texts| ==> texts[i] in Elements(texts);
    }
  }

  /** The first loop of the diff: stored peers are kept, changed or marked for removal. */
  method UpdateStored(existing: Peers, target: Peers)
    returns (removeSet: set<string>, upsertByKey: map<string, PeerInfo>, configs: seq<PeerConfig>,
             ghost texts: seq<string>)
    ensures removeSet == existing.Keys - target.Keys
    ensures Built(existing, target, existing.Keys, upsertByKey, configs, texts)
  {
    removeSet, upsertByKey, configs, texts := {}, map[], [], [];
    var stored := Enumerate(existing.Keys);
    for i := 0 to |stored|
      invariant removeSet == Elements(stored[..i]) - target.Keys
      invariant Built(existing, target, Elements(stored[..i]), upsertByKey, configs, texts)
    {
      var key := stored[i];
      assert key in Elements(stored);
      assert Elements(stored[..i + 1]) == Elements(stored[..i]) + {key};
      Visit(existing, target, Elements(stored[..i]), upsertByKey, configs, texts, key);
      if key !in target {
        removeSet := removeSet + {key};
      } else {
        var rerouted := existing[key].allowedIPs != target[key].allowedIPs;
        if existing[key].email != target[key].email || rerouted {
          if rerouted {
            var config := AddConfig(target[key]);
            if config.None? {
              continue;
            }
            configs := configs + [config.value.(replaceAllowedIPs := true)];
            texts := texts + [key];
          }
          upsertByKey := upsertByKey[key := target[key]];
        }
      }
    }
    assert stored[..|stored|] == stored;
  }

  /** The second loop of the diff: the targets that are not stored yet. */
  method AddNew(existing: Peers, target: Peers, upserts0: map<string, PeerInfo>, configs0: seq<PeerConfig>,
                ghost texts0: seq<string>)
    returns (configs: seq<PeerConfig>, ghost texts: seq<string>, upsertByKey: map<string, PeerInfo>)
    requires Built(existing, target, existing.Keys, upserts0, configs0, texts0)
    ensures upsertByKey.Keys == UpsertTexts(existing, target)
    ensures forall s :: s in upsertByKey ==> s in target && upsertByKey[s] == target[s]
    ensures Lists(texts, ConfigTexts(existing, target)) && StoredFirst(existing, texts)
    ensures ConfigsOf(existing, target, texts, configs)
  {
    upsertByKey, configs, texts := upserts0, configs0, texts0;
    var added := Enumerate(target.Keys - existing.Keys);
    for i := 0 to |added|
      invariant Built(existing, target, existing.Keys + Elements(added[..i]), upsertByKey, configs, texts)
    {
      var key := added[i];
      assert key in Elements(added);
      ghost var done := existing.Keys + Elements(added[..i]);
      assert existing.Keys + Elements(added[..i + 1]) == done + {key};
      Visit(existing, target, done, upsertByKey, configs, texts, key);
      var config := AddConfig(target[key]);
      if config.Some? {
        upsertByKey := upsertByKey[key := target[key]];
        configs := configs + [config.value];
        texts := texts + [key];
      }
    }
    assert added[..|added|] == added;
    assert UpsertTexts(existing, target) * (existing.Keys + Elements(added)) == UpsertTexts(existing, target);
    assert ConfigTexts(existing, target) * (existing.Keys + Elements(added)) == ConfigTexts(existing, target);
  }

  method BuildSyncDiff(existing: Peers, desired: map<string, DesiredPeer>) returns (diff: SyncDiff)
    ensures IsDiff(existing, desired, diff)
  {
    var target := Targets(desired);
    ghost var texts;
    var removeSet, upsertByKey, configs;
    removeSet, upsertByKey, configs, texts := UpdateStored(existing, target);
    configs, texts, upsertByKey := AddNew(existing, target, upsertByKey, configs, texts);
    var removeKeys, removeConfigs := BuildRemoveConfigs(removeSet);
    var upsertKeys := Enumerate(upsertByKey.Keys);
    var upsertPeers := seq(|upsertKeys|, i requires 0 <= i < |upsertKeys| =>
                             assert upsertKeys[i] in Elements(upsertKeys); upsertByKey[upsertKeys[i]]);
    diff := SyncDiff(removeKeys, upsertPeers, configs + removeConfigs, target, removeKeys != [] || upsertPeers != []);
    assert (set s | s in removeSet && ParseKey(s).Some?) == RemoveTexts(existing, target);
    assert PeersOf(target, upsertKeys, upsertPeers) by {
      assert forall i :: 0 <= i < |upsertKeys| ==> upsertKeys[i] in Elements(upsertKeys);
    }
    assert DiffInOrder(existing, target, diff, upsertKeys, texts);
  }
}
