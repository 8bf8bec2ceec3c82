/** What the kernel does with peer configurations: a set of peers and a routing map from prefixes to peers. */
module Devices {
  import opened Base
  import opened Keys
  import opened Networks

  datatype PeerConfig = PeerConfig(publicKey: Key, remove: bool, replaceAllowedIPs: bool, allowedIPs: seq<Prefix>) {
    predicate Grants(p: Prefix) { !remove && p in allowedIPs }

    /** The peer's earlier prefixes go first. */
    predicate Clears() { remove || replaceAllowedIPs }
  }

  datatype Device = Device(peers: set<Key>, routes: map<Prefix, Key>) {
    function Owner(p: Prefix): Option<Key> { if p in routes then Some(routes[p]) else None }

    function Owned(k: Key): set<Prefix> { set p | p in routes && routes[p] == k }
  }

  const NO_PEERS := Device({}, map[])

  /** One configuration: a prefix given to a peer is taken from any other peer. */
  function ConfigureOne(d: Device, c: PeerConfig): Device {
    var k := c.publicKey;
    var kept := if c.Clears() then d.routes - d.Owned(k) else d.routes;
    if c.remove then Device(d.peers - {k}, kept)
    else Device(d.peers + {k}, kept + map p | p in c.allowedIPs :: k)
  }

  function ConfigureAll(d: Device, cs: seq<PeerConfig>): Device {
    if cs == [] then d
    else ConfigureOne(ConfigureAll(d, cs[..|cs| - 1]), cs[|cs| - 1])
  }

  /** Configurations of different peers that give no prefix to two of them. */
  ghost predicate Compatible(cs: seq<PeerConfig>) {
    forall i, j :: 0 <= i < j < |cs| ==> Apart(cs[i], cs[j])
  }

  /** The fate of a prefix nobody is given: its owner keeps it unless the owner's own configuration clears it. */
  ghost function Leftover(d: Device, cs: set<PeerConfig>, p: Prefix): Option<Key> {
    if p in d.routes && !(exists c :: c in cs && c.publicKey == d.routes[p] && c.Clears()) then Some(d.routes[p])
    else None
  }

  /** The outcome of a set of configurations, with no mention of their order. */
  ghost predicate Settles(d: Device, cs: set<PeerConfig>, after: Device) {
    && (forall c :: c in cs ==> (c.publicKey in after.peers <==> !c.remove))
    && (forall k :: (k in after.peers <==> k in d.peers) || exists c :: c in cs && c.publicKey == k)
    && (forall c, p :: c in cs && c.Grants(p) ==> after.Owner(p) == Some(c.publicKey))
    && (forall p :: (exists c :: c in cs && c.Grants(p)) || after.Owner(p) == Leftover(d, cs, p))
  }

  lemma SettlesOnce(d: Device, cs: set<PeerConfig>, a: Device, b: Device)
    requires Settles(d, cs, a) && Settles(d, cs, b)
    ensures a == b
  {
    forall p ensures a.Owner(p) == b.Owner(p) {
    }
    SameOwners(a, b);
    assert forall k :: k in a.peers <==> k in b.peers;
  }

  lemma SameOwners(a: Device, b: Device)
    requires forall p :: a.Owner(p) == b.Owner(p)
    ensures a.routes == b.routes
  {
    forall p ensures p in a.routes <==> p in b.routes {
      assert a.Owner(p) == b.Owner(p);
    }
    forall p | p in a.routes ensures a.routes[p] == b.routes[p] {
      assert a.Owner(p) == b.Owner(p);
    }
  }

  /** Compatible configurations have one outcome, whatever order they come in. */
  lemma {:induction false} ConfigureSettles(d: Device, cs: seq<PeerConfig>)
    requires Compatible(cs)
    ensures Settles(d, Elements(cs), ConfigureAll(d, cs))
  {
    if cs == [] {
      assert Elements(cs) == {};
    } else {
      var init, last := cs[..|cs| - 1], cs[|cs| - 1];
      assert cs == init + [last];
      ConfigureSettles(d, init);
      SettlesGrows(d, init, last);
    }
  }

  lemma SettlesGrows(d: Device, init: seq<PeerConfig>, last: PeerConfig)
    requires Compatible(init + [last])
    requires Settles(d, Elements(init), ConfigureAll(d, init))
    ensures Settles(d, Elements(init + [last]), ConfigureOne(ConfigureAll(d, init), last))
  {
    var mid, before := ConfigureAll(d, init), Elements(init);
    assert Elements(init + [last]) == before + {last};
    forall c | c in before ensures Apart(c, last) {
      var i :| 0 <= i < |init| && init[i] == c;
      assert (init + [last])[i] == c && (init + [last])[|init|] == last;
    }
    PeersGrow(d, before, mid, last);
    GrantsGrow(d, before, mid, last);
    forall p {
      OwnerGrows(d, before, mid, last, p);
    }
  }

  ghost predicate Apart(c: PeerConfig, last: PeerConfig) {
    c.publicKey != last.publicKey && forall p :: !(c.Grants(p) && last.Grants(p))
  }

  lemma PeersGrow(d: Device, before: set<PeerConfig>, mid: Device, last: PeerConfig)
    requires Settles(d, before, mid)
    requires forall c :: c in before ==> Apart(c, last)
    ensures var all, after := before + {last}, ConfigureOne(mid, last);
            && (forall c :: c in all ==> (c.publicKey in after.peers <==> !c.remove))
            && (forall k :: (k in after.peers <==> k in d.peers) || exists c :: c in all && c.publicKey == k)
  {
  }

  lemma GrantsGrow(d: Device, before: set<PeerConfig>, mid: Device, last: PeerConfig)
    requires Settles(d, before, mid)
    requires forall c :: c in before ==> Apart(c, last)
    ensures forall c, p :: c in before + {last} && c.Grants(p) ==> ConfigureOne(mid, last).Owner(p) == Some(c.publicKey)
  {
  }

  lemma OwnerGrows(d: Device, before: set<PeerConfig>, mid: Device, last: PeerConfig, p: Prefix)
    requires Settles(d, before, mid)
    requires forall c :: c in before ==> Apart(c, last)
    ensures (exists c :: c in before + {last} && c.Grants(p)) ||
            ConfigureOne(mid, last).Owner(p) == Leftover(d, before + {last}, p)
  {
    var all := before + {last};
    if !(exists c :: c in all && c.Grants(p)) {
      assert !last.Grants(p) by { assert last in all; }
      assert forall c :: c in before ==> c in all;
      assert mid.Owner(p) == Leftover(d, before, p);
      assert ConfigureOne(mid, last).Owner(p) ==
             if mid.Owner(p) == Some(last.publicKey) && last.Clears() then None else mid.Owner(p);
    }
  }
}
