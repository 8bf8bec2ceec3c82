/**
 * Requests that spell keys in other ways than the store prints them. A request in which every key has one text, and no
 * stored key another, does what its canonical spelling does; any other request parts store and kernel, or takes the
 * peer of an email it does not touch.
 */
module Spellings {
  import opened Base
  import opened Keys
  import opened Networks
  import opened DesiredPeers
  import opened PeerStores
  import opened Devices
  import opened SyncDiffs
  import opened Reconcile
  import opened Snapshots

  /** A text that parses to a stored key is that key's own text. */
  ghost predicate NoStoredAlias(peers: Peers, desired: map<string, DesiredPeer>) {
    forall t :: t in desired && desired[t].parsedKey in peers ==> desired[t].parsedKey == t
  }

  /** No two texts parse to one key. */
  ghost predicate OneTextAKey(desired: map<string, DesiredPeer>) {
    forall s, t :: s in desired && t in desired && desired[s].parsedKey == desired[t].parsedKey ==> s == t
  }

  /** The peers of emails the request does not touch are as before. */
  ghost predicate OthersKept(peers: Peers, touched: set<string>, after: Peers) {
    forall k :: k in peers && peers[k].email !in touched ==> k in after && after[k] == peers[k]
  }

  // ---- the canonical spelling ---------------------------------------------

  ghost function KeysOf(desired: map<string, DesiredPeer>): set<Key> {
    set t | t in desired :: desired[t].parsedKey
  }

  ghost function TextOf(desired: map<string, DesiredPeer>, k: Key): (t: string)
    requires k in KeysOf(desired)
    ensures t in desired && desired[t].parsedKey == k
  {
    var t :| t in desired && desired[t].parsedKey == k;
    t
  }

  ghost function Respelt(desired: map<string, DesiredPeer>): map<string, DesiredPeer> {
    map k | k in KeysOf(desired) :: desired[TextOf(desired, k)].(publicKey := k)
  }

  lemma RespeltAt(desired: map<string, DesiredPeer>, t: string)
    requires OneTextAKey(desired) && t in desired
    ensures desired[t].parsedKey in Respelt(desired)
    ensures Respelt(desired)[desired[t].parsedKey] == desired[t].(publicKey := desired[t].parsedKey)
    ensures Targets(Respelt(desired))[desired[t].parsedKey] == Targets(desired)[t]
  {
    assert desired[t].parsedKey in KeysOf(desired);
    assert TextOf(desired, desired[t].parsedKey) == t;
  }

  lemma RespeltIsCanonical(desired: map<string, DesiredPeer>)
    requires WellCollected(desired)
    ensures WellCollected(Respelt(desired)) && CanonicalTexts(Respelt(desired))
  {
    forall k | k in KeysOf(desired) ensures ParseKey(k) == Some(k) {
      ParsePrinted(k);
    }
  }

  lemma CanonicalIsRespelt(desired: map<string, DesiredPeer>)
    requires WellCollected(desired) && CanonicalTexts(desired)
    ensures OneTextAKey(desired) && Respelt(desired) == desired
  {
    assert KeysOf(desired) == desired.Keys;
    forall t | t in desired ensures Respelt(desired)[t] == desired[t] {
      RespeltAt(desired, t);
    }
  }

  /** `target'` is `target` with its texts renamed, those of stored peers staying as they are. */
  ghost predicate Renames(existing: Peers, target: Peers, key: map<string, Key>, target': Peers) {
    && key.Keys == target.Keys
    && (forall t :: t in key ==> key[t] in target' && target'[key[t]] == target[t])
    && (forall t :: t in key && (t in existing || key[t] in existing) ==> key[t] == t)
    && (forall k :: k in target' ==> exists t :: t in key && key[t] == k)
    && (forall s, t :: s in key && t in key && key[s] == key[t] ==> s == t)
  }

  ghost function Renamed(key: map<string, Key>, texts: seq<string>): (r: seq<Key>)
    requires forall i :: 0 <= i < |texts| ==> texts[i] in key
    ensures |r| == |texts| && forall i :: 0 <= i < |texts| ==> r[i] == key[texts[i]]
  {
    seq(|texts|, i requires 0 <= i < |texts| => key[texts[i]])
  }

  lemma SameNeeds(existing: Peers, target: Peers, key: map<string, Key>, target': Peers, t: string)
    requires Renames(existing, target, key, target') && t in key
    ensures t in existing <==> key[t] in existing
    ensures NeedsUpsert(existing, target, t) <==> NeedsUpsert(existing, target', key[t])
    ensures NeedsConfig(existing, target, t) <==> NeedsConfig(existing, target', key[t])
    ensures ConfigFor(existing, target, t) == ConfigFor(existing, target', key[t])
  {
  }

  lemma RenamedLists(key: map<string, Key>, texts: seq<string>, wanted: set<string>, keys: set<Key>)
    requires Lists(texts, wanted) && (forall i :: 0 <= i < |texts| ==> texts[i] in key)
    requires forall s, t :: s in key && t in key && key[s] == key[t] ==> s == t
    requires forall k :: k in keys ==> exists t :: t in key && key[t] == k
    requires forall t :: t in key ==> (t in wanted <==> key[t] in keys)
    ensures Lists(Renamed(key, texts), keys)
  {
    var keyed := Renamed(key, texts);
    assert forall i :: 0 <= i < |texts| ==> texts[i] in Elements(texts);
    forall k | k in keys ensures k in Elements(keyed) {
      var t :| t in key && key[t] == k;
      assert t in Elements(texts);
      var i :| 0 <= i < |texts| && texts[i] == t;
      assert keyed[i] == k;
    }
  }

  lemma UpsertsRenamed(existing: Peers, target: Peers, key: map<string, Key>, target': Peers, texts: seq<string>,
                       peers: seq<PeerInfo>)
    requires Renames(existing, target, key, target')
    requires Lists(texts, UpsertTexts(existing, target)) && PeersOf(target, texts, peers)
    ensures Lists(Renamed(key, texts), UpsertTexts(existing, target')) && PeersOf(target', Renamed(key, texts), peers)
  {
    forall t | t in key ensures t in UpsertTexts(existing, target) <==> key[t] in UpsertTexts(existing, target') {
      SameNeeds(existing, target, key, target', t);
    }
    RenamedLists(key, texts, UpsertTexts(existing, target), UpsertTexts(existing, target'));
  }

  lemma ConfigsRenamed(existing: Peers, target: Peers, key: map<string, Key>, target': Peers, texts: seq<string>,
                       cs: seq<PeerConfig>)
    requires Renames(existing, target, key, target')
    requires Lists(texts, ConfigTexts(existing, target)) && StoredFirst(existing, texts) &&
             ConfigsOf(existing, target, texts, cs)
    ensures Lists(Renamed(key, texts), ConfigTexts(existing, target')) && StoredFirst(existing, Renamed(key, texts))
    ensures ConfigsOf(existing, target', Renamed(key, texts), cs)
  {
    forall t | t in key
      ensures t in ConfigTexts(existing, target) <==> key[t] in ConfigTexts(existing, target')
      ensures (t in existing <==> key[t] in existing) &&
              ConfigFor(existing, target, t) == ConfigFor(existing, target', key[t])
    {
      SameNeeds(existing, target, key, target', t);
    }
    RenamedLists(key, texts, ConfigTexts(existing, target), ConfigTexts(existing, target'));
  }

  lemma RemovalsRenamed(existing: Peers, target: Peers, key: map<string, Key>, target': Peers)
    requires Renames(existing, target, key, target')
    ensures RemoveTexts(existing, target') == RemoveTexts(existing, target)
  {
    forall k | k in existing ensures k in target' <==> k in target {
      if k in target' {
        var t :| t in key && key[t] == k;
      }
    }
  }

  /** The same diff, for the renamed targets. */
  lemma DiffRenamed(existing: Peers, target: Peers, key: map<string, Key>, target': Peers, diff: SyncDiff,
                    upserted: seq<string>, configured: seq<string>)
    requires Renames(existing, target, key, target') && DiffInOrder(existing, target, diff, upserted, configured)
    ensures DiffInOrder(existing, target', diff.(targetPeers := target'), Renamed(key, upserted),
                        Renamed(key, configured))
  {
    UpsertsRenamed(existing, target, key, target', upserted, diff.upsertPeers);
    ConfigsRenamed(existing, target, key, target', configured, diff.peerConfigs[..|configured|]);
    RemovalsRenamed(existing, target, key, target');
  }

  ghost function KeyMap(desired: map<string, DesiredPeer>): map<string, Key> {
    map t | t in desired :: desired[t].parsedKey
  }

  lemma RespellingRenames(existing: Peers, desired: map<string, DesiredPeer>)
    requires SoundStore(existing) && WellCollected(desired) && OneTextAKey(desired) && NoStoredAlias(existing, desired)
    ensures Renames(existing, Targets(desired), KeyMap(desired), Targets(Respelt(desired)))
  {
    var key, target' := KeyMap(desired), Targets(Respelt(desired));
    forall t | t in key ensures key[t] in target' && target'[key[t]] == Targets(desired)[t] {
      RespeltAt(desired, t);
    }
    forall k | k in target' ensures exists t :: t in key && key[t] == k {
      assert TextOf(desired, k) in key;
    }
  }

  /** The diff of a request is, but for the texts of its targets, the diff of its canonical spelling. */
  lemma DiffRespelt(existing: Peers, desired: map<string, DesiredPeer>, diff: SyncDiff)
    requires SoundStore(existing) && WellCollected(desired) && OneTextAKey(desired) && NoStoredAlias(existing, desired)
    requires IsDiff(existing, desired, diff)
    ensures IsDiff(existing, Respelt(desired), diff.(targetPeers := Targets(Respelt(desired))))
  {
    var upserted, configured :| DiffInOrder(existing, Targets(desired), diff, upserted, configured);
    RespellingRenames(existing, desired);
    DiffRenamed(existing, Targets(desired), KeyMap(desired), Targets(Respelt(desired)), diff, upserted, configured);
  }
}
