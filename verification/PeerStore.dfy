/** The two-way index of configured peers (backend/wireguard/peer_store.go). */
module PeerStores {
  import opened Base
  import opened Keys
  import opened Networks

  datatype PeerInfo = PeerInfo(email: string, publicKey: Key, allowedIPs: seq<Prefix>)

  type Peers = map<Key, PeerInfo>

  /** Each peer is filed under its own key. */
  ghost predicate Filed(peers: Peers) {
    forall k :: k in peers ==> peers[k].publicKey == k
  }

  /** The two maps are inverses of each other. */
  ghost predicate Inverse(peers: Peers, emailToKey: map<string, Key>) {
    && Filed(peers)
    && (forall k :: k in peers ==> peers[k].email in emailToKey && emailToKey[peers[k].email] == k)
    && (forall e :: e in emailToKey ==> emailToKey[e] in peers && peers[emailToKey[e]].email == e)
  }

  /** No two peers share an email. */
  ghost predicate DistinctOwners(peers: Peers) {
    forall j, k :: j in peers && k in peers && peers[j].email == peers[k].email ==> j == k
  }

  lemma InverseHasDistinctOwners(peers: Peers, emailToKey: map<string, Key>)
    requires Inverse(peers, emailToKey)
    ensures DistinctOwners(peers)
  {
  }

  // ---- what one upsert and many upserts mean ------------------------------

  /** One upsert takes the key and the email away from whoever held them. */
  function Upserted(peers: Peers, p: PeerInfo): Peers {
    (map k | k in peers && k != p.publicKey && peers[k].email != p.email :: peers[k])[p.publicKey := p]
  }

  function UpsertedAll(peers: Peers, ups: seq<PeerInfo>): Peers {
    if ups == [] then peers
    else Upserted(UpsertedAll(peers, ups[..|ups| - 1]), ups[|ups| - 1])
  }

  /** Upserts that share neither a key nor an email. */
  ghost predicate Independent(ups: seq<PeerInfo>) {
    forall i, j :: 0 <= i < j < |ups| ==> ups[i].publicKey != ups[j].publicKey && ups[i].email != ups[j].email
  }

  ghost predicate Disturbed(ups: set<PeerInfo>, p: PeerInfo) {
    exists u :: u in ups && (u.publicKey == p.publicKey || u.email == p.email)
  }

  /** All upserts at once: they are in, and of the others exactly those sharing no key and no email with them stay. */
  ghost predicate Overridden(before: Peers, ups: set<PeerInfo>, after: Peers) {
    && (forall u :: u in ups ==> u.publicKey in after && after[u.publicKey] == u)
    && (forall k :: k in after ==>
          after[k] in ups || (k in before && after[k] == before[k] && !Disturbed(ups, before[k])))
    && (forall k :: k in before && !Disturbed(ups, before[k]) ==> k in after && after[k] == before[k])
  }

  lemma OverrideIsFunctional(before: Peers, ups: set<PeerInfo>, a: Peers, b: Peers)
    requires Filed(before) && Filed(a) && Filed(b)
    requires Overridden(before, ups, a) && Overridden(before, ups, b)
    ensures a == b
  {
  }

  lemma {:induction false} UpsertedAllStaysFiled(peers: Peers, ups: seq<PeerInfo>)
    requires Filed(peers)
    ensures Filed(UpsertedAll(peers, ups))
  {
    if ups != [] {
      UpsertedAllStaysFiled(peers, ups[..|ups| - 1]);
    }
  }

  /** Independent upserts, one after another in any order, are the simultaneous override. */
  lemma {:induction false} IndependentUpsertsOverride(peers: Peers, ups: seq<PeerInfo>)
    requires Filed(peers) && Independent(ups)
    ensures Overridden(peers, Elements(ups), UpsertedAll(peers, ups))
  {
    if ups != [] {
      var init, last := ups[..|ups| - 1], ups[|ups| - 1];
      assert ups == init + [last];
      IndependentUpsertsOverride(peers, init);
      UpsertedAllStaysFiled(peers, init);
      UpsertExtendsOverride(peers, init, last);
    } else {
      assert Elements(ups) == {};
    }
  }

  lemma UpsertExtendsOverride(peers: Peers, init: seq<PeerInfo>, last: PeerInfo)
    requires Filed(peers) && Independent(init + [last])
    requires Filed(UpsertedAll(peers, init)) && Overridden(peers, Elements(init), UpsertedAll(peers, init))
    ensures Overridden(peers, Elements(init + [last]), Upserted(UpsertedAll(peers, init), last))
  {
    var mid, all := UpsertedAll(peers, init), Elements(init + [last]);
    var after := Upserted(mid, last);
    assert forall u :: u in all <==> u in Elements(init) || u == last;
    forall u | u in Elements(init) ensures u.publicKey != last.publicKey && u.email != last.email {
      var i :| 0 <= i < |init| && init[i] == u;
      assert (init + [last])[i] == u && (init + [last])[|init|] == last;
    }
    forall k | k in peers
      ensures Disturbed(all, peers[k]) <==>
              Disturbed(Elements(init), peers[k]) || last.publicKey == k || last.email == peers[k].email
    {
      assert last in all;
    }
  }

  /** Reordering independent upserts does not change the result. */
  lemma UpsertOrderIrrelevant(peers: Peers, ups: seq<PeerInfo>, vps: seq<PeerInfo>)
    requires Filed(peers) && Independent(ups) && Independent(vps) && Elements(ups) == Elements(vps)
    ensures UpsertedAll(peers, ups) == UpsertedAll(peers, vps)
  {
    IndependentUpsertsOverride(peers, ups);
    IndependentUpsertsOverride(peers, vps);
    UpsertedAllStaysFiled(peers, ups);
    UpsertedAllStaysFiled(peers, vps);
    OverrideIsFunctional(peers, Elements(ups), UpsertedAll(peers, ups), UpsertedAll(peers, vps));
  }

  /** The peers after the email's old key is dropped. */
  function WithoutOldKey(peers: Peers, emailToKey: map<string, Key>, p: PeerInfo): Peers {
    if p.email in emailToKey && emailToKey[p.email] != p.publicKey then peers - {emailToKey[p.email]} else peers
  }

  /** The emails after the key's old owner is dropped. */
  function WithoutOldOwner(peers: Peers, emailToKey: map<string, Key>, p: PeerInfo): map<string, Key> {
    if p.publicKey in peers && peers[p.publicKey].email != p.email then emailToKey - {peers[p.publicKey].email}
    else emailToKey
  }

  lemma StepIsUpsert(peers: Peers, emailToKey: map<string, Key>, p: PeerInfo)
    requires Inverse(peers, emailToKey)
    ensures WithoutOldKey(peers, emailToKey, p)[p.publicKey := p] == Upserted(peers, p)
  {
  }

  lemma StepKeepsInverse(peers: Peers, emailToKey: map<string, Key>, p: PeerInfo)
    requires Inverse(peers, emailToKey)
    ensures var mid := WithoutOldKey(peers, emailToKey, p);
            Inverse(mid[p.publicKey := p], WithoutOldOwner(mid, emailToKey, p)[p.email := p.publicKey])
  {
  }

  /** A list of peers filed by key; a later entry replaces an earlier one. */
  function ByKey(list: seq<PeerInfo>): Peers {
    if list == [] then map[]
    else ByKey(list[..|list| - 1])[list[|list| - 1].publicKey := list[|list| - 1]]
  }

  function ByEmail(list: seq<PeerInfo>): map<string, Key> {
    if list == [] then map[]
    else ByEmail(list[..|list| - 1])[list[|list| - 1].email := list[|list| - 1].publicKey]
  }

  lemma IndexGrows(list: seq<PeerInfo>, p: PeerInfo)
    ensures ByKey(list + [p]) == ByKey(list)[p.publicKey := p]
    ensures ByEmail(list + [p]) == ByEmail(list)[p.email := p.publicKey]
  {
  }

  lemma UpsertsGrow(peers: Peers, ups: seq<PeerInfo>, p: PeerInfo)
    ensures UpsertedAll(peers, ups + [p]) == Upserted(UpsertedAll(peers, ups), p)
  {
  }

  ghost predicate Files(list: seq<PeerInfo>, peers: Peers) {
    && (forall i :: 0 <= i < |list| ==> list[i].publicKey in peers && peers[list[i].publicKey] == list[i])
    && (forall k :: k in peers ==> peers[k] in list)
  }

  /** Peers that share neither key nor email are all filed, and the two maps are inverses. */
  lemma {:induction false} ByKeyHolds(list: seq<PeerInfo>)
    requires Independent(list)
    ensures Files(list, ByKey(list)) && Inverse(ByKey(list), ByEmail(list))
  {
    if list != [] {
      assert list == list[..|list| - 1] + [list[|list| - 1]];
      var init, last := list[..|list| - 1], list[|list| - 1];
      ByKeyHolds(init);
      ByKeyExtends(init, ByKey(init), ByEmail(init), last);
    }
  }

  lemma ByKeyExtends(list: seq<PeerInfo>, peers: Peers, emailToKey: map<string, Key>, p: PeerInfo)
    requires Inverse(peers, emailToKey) && Files(list, peers)
    requires forall i :: 0 <= i < |list| ==> list[i].publicKey != p.publicKey && list[i].email != p.email
    ensures Inverse(peers[p.publicKey := p], emailToKey[p.email := p.publicKey])
    ensures Files(list + [p], peers[p.publicKey := p])
  {
  }

  class PeerStore {
    var peers: Peers
    var emailToKey: map<string, Key>

    ghost predicate Valid()
      reads this
    {
      Inverse(peers, emailToKey)
    }

    constructor ()
      ensures Valid() && peers == map[] && emailToKey == map[]
    {
      peers, emailToKey := map[], map[];
    }

    /** The loop of Init and of ReplaceAll: files a list under its keys and under its emails. */
    static method Index(list: seq<Option<PeerInfo>>) returns (byKey: Peers, byEmail: map<string, Key>)
      ensures byKey == ByKey(Present(list)) && byEmail == ByEmail(Present(list))
      ensures Independent(Present(list)) ==> Inverse(byKey, byEmail)
    {
      byKey, byEmail := map[], map[];
      for i := 0 to |list|
        invariant byKey == ByKey(Present(list[..i])) && byEmail == ByEmail(Present(list[..i]))
      {
        PresentGrows(list, i);
        if list[i].Some? {
          var peer := list[i].value;
          IndexGrows(Present(list[..i]), peer);
          byKey := byKey[peer.publicKey := peer];
          byEmail := byEmail[peer.email := peer.publicKey];
        }
      }
      assert list[..|list|] == list;
      if Independent(Present(list)) {
        ByKeyHolds(Present(list));
      }
    }

    /** Fills the store; used only while it is empty, with peers that share neither key nor email. */
    method Init(list: seq<Option<PeerInfo>>)
      requires peers == map[] && emailToKey == map[]
      modifies this
      ensures peers == ByKey(Present(list)) && emailToKey == ByEmail(Present(list))
      ensures Independent(Present(list)) ==> Valid()
    {
      peers, emailToKey := Index(list);
    }

    method RemoveAll(removeKeys: seq<string>) returns (removed: seq<string>)
      requires Valid()
      modifies this
      ensures Valid()
      ensures peers == old(peers) - Elements(removeKeys)
      ensures NoDuplicates(removed) && Elements(removed) == old(peers).Keys * Elements(removeKeys)
    {
      removed := [];
      for i := 0 to |removeKeys|
        invariant Valid()
        invariant peers == old(peers) - Elements(removeKeys[..i])
        invariant NoDuplicates(removed) && Elements(removed) == old(peers).Keys * Elements(removeKeys[..i])
      {
        var key := removeKeys[i];
        assert removeKeys[..i + 1] == removeKeys[..i] + [key];
        if key in peers {
          assert key !in Elements(removed);
          emailToKey := emailToKey - {peers[key].email};
          peers := peers - {key};
          removed := removed + [key];
        }
      }
      assert removeKeys[..|removeKeys|] == removeKeys;
    }

    /** One turn of the upsert loop: it deletes the email's old key and the key's old email. */
    method Upsert(peer: PeerInfo)
      requires Valid()
      modifies this
      ensures Valid()
      ensures peers == Upserted(old(peers), peer)
    {
      StepIsUpsert(peers, emailToKey, peer);
      StepKeepsInverse(peers, emailToKey, peer);
      if peer.email in emailToKey && emailToKey[peer.email] != peer.publicKey {
        peers := peers - {emailToKey[peer.email]};
      }
      if peer.publicKey in peers && peers[peer.publicKey].email != peer.email {
        emailToKey := emailToKey - {peers[peer.publicKey].email};
      }
      peers := peers[peer.publicKey := peer];
      emailToKey := emailToKey[peer.email := peer.publicKey];
    }

    /** Removals, then upserts; the removed keys that were there are returned. */
    method ApplyChanges(removeKeys: seq<string>, upsertPeers: seq<Option<PeerInfo>>) returns (removed: seq<string>)
      requires Valid()
      modifies this
      ensures Valid()
      ensures peers == UpsertedAll(old(peers) - Elements(removeKeys), Present(upsertPeers))
      ensures NoDuplicates(removed) && Elements(removed) == old(peers).Keys * Elements(removeKeys)
    {
      removed := RemoveAll(removeKeys);
      ghost var kept := peers;
      for i := 0 to |upsertPeers|
        invariant Valid()
        invariant peers == UpsertedAll(kept, Present(upsertPeers[..i]))
      {
        PresentGrows(upsertPeers, i);
        if upsertPeers[i].Some? {
          UpsertsGrow(kept, Present(upsertPeers[..i]), upsertPeers[i].value);
          Upsert(upsertPeers[i].value);
        }
      }
      assert upsertPeers[..|upsertPeers|] == upsertPeers;
    }

    /** Swaps in a new population; returns the keys that are gone. */
    method ReplaceAll(list: seq<Option<PeerInfo>>) returns (removed: seq<string>)
      modifies this
      ensures peers == ByKey(Present(list)) && emailToKey == ByEmail(Present(list))
      ensures Independent(Present(list)) ==> Valid()
      ensures NoDuplicates(removed) && Elements(removed) == old(peers).Keys - peers.Keys
    {
      var newPeers, newEmailToKey := Index(list);
      removed := Enumerate(peers.Keys - newPeers.Keys);
      peers, emailToKey := newPeers, newEmailToKey;
    }

    method GetByEmail(email: string) returns (r: Option<PeerInfo>)
      requires Valid()
      ensures r.Some? <==> exists k :: k in peers && peers[k].email == email
      ensures r.Some? ==> r.value.publicKey in peers && peers[r.value.publicKey] == r.value && r.value.email == email
    {
      if email in emailToKey {
        r := Some(peers[emailToKey[email]]);
      } else {
        r := None;
      }
    }
  }
}
