/** Full snapshots: the whole peer population sent in one replacing call (full sync, startup and restart). */
module Snapshots {
  import opened Base
  import opened Keys
  import opened Networks
  import opened PeerStores
  import opened Devices
  import opened SyncDiffs
  import opened Reconcile

  /** One configuration for every peer, in the order `order`. */
  ghost predicate SnapshotInOrder(peers: Peers, order: seq<Key>, cs: seq<PeerConfig>) {
    && Lists(order, peers.Keys)
    && |cs| == |order|
    && forall i :: 0 <= i < |cs| ==> order[i] in peers && AddConfig(peers[order[i]]) == Some(cs[i])
  }

  ghost predicate IsSnapshot(peers: Peers, cs: seq<PeerConfig>) {
    exists order :: SnapshotInOrder(peers, order, cs)
  }

  lemma SnapshotConfigs(peers: Peers, order: seq<Key>, cs: seq<PeerConfig>)
    requires Filed(peers) && SnapshotInOrder(peers, order, cs)
    ensures forall c :: c in cs <==> c.publicKey in peers && AddConfig(peers[c.publicKey]) == Some(c)
    ensures DisjointStore(peers) ==> Compatible(cs)
  {
  }

  /** A snapshot brings the kernel into agreement exactly when no prefix is stored at two peers. */
  lemma SnapshotAgreement(peers: Peers, cs: seq<PeerConfig>)
    requires Filed(peers) && IsSnapshot(peers, cs)
    ensures Agree(peers, ConfigureAll(NO_PEERS, cs)) <==> DisjointStore(peers)
  {
    var d := ConfigureAll(NO_PEERS, cs);
    var order :| SnapshotInOrder(peers, order, cs);
    if DisjointStore(peers) {
      SnapshotConfigs(peers, order, cs);
      ConfigureSettles(NO_PEERS, cs);
      SettledSnapshot(peers, order, cs, d);
    } else if Agree(peers, d) {
      AgreementIsDisjoint(peers, d);
    }
  }

  lemma SettledSnapshot(peers: Peers, order: seq<Key>, cs: seq<PeerConfig>, d: Device)
    requires Filed(peers) && SnapshotInOrder(peers, order, cs)
    requires forall c :: c in cs <==> c.publicKey in peers && AddConfig(peers[c.publicKey]) == Some(c)
    requires Settles(NO_PEERS, Elements(cs), d)
    ensures Agree(peers, d)
  {
    forall k | k in peers ensures AddConfig(peers[k]).Some? && AddConfig(peers[k]).value in cs {
      assert k in Elements(order);
      var i :| 0 <= i < |order| && order[i] == k;
      assert cs[i] in cs;
    }
    assert forall c :: c in Elements(cs) <==> c in cs;
    forall k ensures k in d.peers <==> k in peers {
      assert k in peers ==> AddConfig(peers[k]).value in cs;
    }
    forall k, p | k in peers && p in peers[k].allowedIPs ensures d.Owner(p) == Some(k) {
      assert AddConfig(peers[k]).value.Grants(p);
    }
    forall p | p in d.routes ensures d.routes[p] in peers && p in peers[d.routes[p]].allowedIPs {
      assert d.Owner(p) == Some(d.routes[p]);
      assert Leftover(NO_PEERS, Elements(cs), p) == None;
      var c :| c in Elements(cs) && c.Grants(p);
      assert d.Owner(p) == Some(c.publicKey);
    }
  }

  /** buildTargetPeerConfigs: the configurations of the peers with networks, and the keys that got one. */
  method BuildTargetPeerConfigs(target: Peers) returns (configs: seq<PeerConfig>, appliedKeys: set<string>)
    ensures appliedKeys == set k | k in target && target[k].allowedIPs != []
    ensures IsSnapshot(map k | k in appliedKeys :: target[k], configs)
  {
    var keys := Enumerate(target.Keys);
    configs, appliedKeys := [], {};
    ghost var order: seq<Key> := [];
    for i := 0 to |keys|
      invariant forall k :: k in appliedKeys <==> k in keys[..i] && k in target && target[k].allowedIPs != []
      invariant Lists(order, appliedKeys) && |configs| == |order|
      invariant forall j :: 0 <= j < |configs| ==> order[j] in target && AddConfig(target[order[j]]) == Some(configs[j])
    {
      var key := keys[i];
      assert key in Elements(keys) && key !in keys[..i];
      var config := AddConfig(target[key]);
      if config.Some? {
        assert key !in Elements(order);
        assert Elements(order + [key]) == Elements(order) + {key};
        configs := configs + [config.value];
        appliedKeys := appliedKeys + {key};
        order := order + [key];
      }
    }
    assert forall k :: k in Elements(keys) <==> k in target;
    ghost var applied := map k | k in appliedKeys :: target[k];
    assert forall j :: 0 <= j < |order| ==> order[j] in Elements(order);
    assert SnapshotInOrder(applied, order, configs);
  }

  /** buildPeerConfigsForRestart: a stored peer without networks is an error. */
  method BuildPeerConfigsForRestart(peers: Peers) returns (r: Result<seq<PeerConfig>, string>)
    ensures r.Err? <==> exists k :: k in peers && peers[k].allowedIPs == []
    ensures r.Ok? ==> IsSnapshot(peers, r.value)
  {
    var order := Enumerate(peers.Keys);
    var configs: seq<PeerConfig> := [];
    for i := 0 to |order|
      invariant |configs| == i
      invariant forall j :: 0 <= j < i ==> order[j] in peers && AddConfig(peers[order[j]]) == Some(configs[j])
    {
      assert order[i] in Elements(order);
      var peer := peers[order[i]];
      if peer.allowedIPs == [] {
        return Err("peer has no allowed IPs");
      }
      configs := configs + [PeerConfig(peer.publicKey, false, false, peer.allowedIPs)];
    }
    forall k | k in peers ensures peers[k].allowedIPs != [] {
      assert k in Elements(order);
    }
    assert SnapshotInOrder(peers, order, configs);
    r := Ok(configs);
  }
}
