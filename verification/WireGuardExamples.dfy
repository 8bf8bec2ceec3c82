/** Short runs, from users, that end where the conditions on partial syncs fail. */
module WireGuardExamples {
  import opened Base
  import opened Keys
  import opened Networks
  import opened Common
  import opened DesiredPeers
  import opened PeerStores
  import opened Devices
  import opened SyncDiffs
  import opened Reconcile
  import opened Snapshots
  import opened Spellings
  import opened WireGuardRuns

  /** A user of the interface with one network. */
  function PeerUser(iface: Interface, email: string, text: string, net: IPNet): User {
    User(email, Some(Proxy(None, None, None, None, Some(Wireguard(text, [Cidr(net)])), None)), [iface.name])
  }

  function WantedPeer(email: string, text: string, k: Key, net: IPNet): map<string, DesiredPeer> {
    map[text := DesiredPeer(email, text, k, [Text(net)])]
  }

  lemma OneUserAsks(iface: Interface, email: string, text: string, k: Key, net: IPNet)
    requires ParseKey(text) == Some(k) && iface.allows(net)
    ensures AskOf(iface, PeerUser(iface, email, text, net)) ==
            Ask(email, {Text(net)}, Some(DesiredPeer(email, text, k, [Text(net)])))
  {
    var ips := [Cidr(net)];
    ReadableUnique(ips, 1);
    assert ips[..1] == ips && ips[..0] == [];
    assert OnInterface(iface, ips) == [Text(net)];
    assert Elements([Text(net)]) == {Text(net)};
  }

  lemma OneUserNormalized(iface: Interface, email: string, text: string, net: IPNet)
    requires email != "" && text != ""
    ensures Normalized([PeerUser(iface, email, text, net)]) == {PeerUser(iface, email, text, net)}
    ensures Touched([PeerUser(iface, email, text, net)]) == {email}
  {
    var u := PeerUser(iface, email, text, net);
    assert LastAt([u], 0, u);
    assert Normalized([u]) == {u};
  }

  /** What one user wants is its own peer. */
  lemma OneUserWants(iface: Interface, email: string, text: string, k: Key, net: IPNet)
    requires email != "" && text != "" && ParseKey(text) == Some(k) && iface.allows(net)
    ensures Wants(iface, [PeerUser(iface, email, text, net)], WantedPeer(email, text, k, net))
  {
    var u := PeerUser(iface, email, text, net);
    OneUserNormalized(iface, email, text, net);
    OneUserAsks(iface, email, text, k, net);
    assert Asks(iface, {u}) == {AskOf(iface, u)};
    OneAskCollects(AskOf(iface, u), WantedPeer(email, text, k, net), text);
    OneIsWellCollected(WantedPeer(email, text, k, net), text);
  }

  lemma OneIsWellCollected(desired: map<string, DesiredPeer>, text: string)
    requires desired.Keys == {text} && desired[text].publicKey == text && desired[text].allowedIPNets != []
    requires ParseKey(text) == Some(desired[text].parsedKey)
    ensures WellCollected(desired)
  {
  }

  lemma OneAskCollects(a: Ask, desired: map<string, DesiredPeer>, text: string)
    requires desired.Keys == {text} && desired[text].publicKey == text && a.peer == Some(desired[text])
    ensures Collects({a}, desired)
  {
    assert a in {a};
  }

  /** The state after starting with one user. */
  function OnePeer(email: string, k: Key, p: Prefix): State {
    State(map[k := PeerInfo(email, k, [p])], Device({k}, map[p := k]), true)
  }

  lemma OnePeerReplaced(email: string, k: Key, net: IPNet)
    requires ParseKey(k) == Some(k)
    ensures Replaced(WantedPeer(email, k, k, net), OnePeer(email, k, Text(net)))
  {
    var p, s := Text(net), OnePeer(email, k, Text(net));
    var target := Targets(WantedPeer(email, k, k, net));
    var peer, c := PeerInfo(email, k, [p]), PeerConfig(k, false, false, [p]);
    assert target == map[k := peer] && Elements([k]) == {k};
    assert Lists([k], target.Keys) && PeersOf(target, [k], [peer]);
    assert ListsPeers(target, [peer]);
    assert [peer][..0] == [] && ByKey([peer]) == s.peers;
    assert SnapshotInOrder(target, [k], [c]);
    assert IsSnapshot(target, [c]);
    assert [c][..0] == [] && ConfigureAll(NO_PEERS, [c][..0]) == NO_PEERS;
    assert ConfigureAll(NO_PEERS, [c]) == ConfigureOne(NO_PEERS, c);
    assert ConfigureOne(NO_PEERS, c) == s.device;
    assert ReplacedWith(WantedPeer(email, k, k, net), s, [peer], [c]);
  }

  lemma OneUserStarts(iface: Interface, email: string, k: Key, net: IPNet)
    requires email != "" && Canonical(k) && iface.allows(net)
    ensures Started(iface, [PeerUser(iface, email, k, net)], OnePeer(email, k, Text(net)))
  {
    ParsePrinted(k);
    OneUserWants(iface, email, k, k, net);
    OnePeerReplaced(email, k, net);
  }

  /** The diff that adds one peer to a store that has nothing of the touched email. */
  function AddingDiff(email: string, text: string, k: Key, net: IPNet): SyncDiff {
    SyncDiff([], [PeerInfo(email, k, [Text(net)])], [PeerConfig(k, false, false, [Text(net)])],
             Targets(WantedPeer(email, text, k, net)), true)
  }

  lemma AddingIsDiff(email: string, text: string, k: Key, net: IPNet)
    ensures IsDiff(map[], WantedPeer(email, text, k, net), AddingDiff(email, text, k, net))
  {
    var target, diff := Targets(WantedPeer(email, text, k, net)), AddingDiff(email, text, k, net);
    assert UpsertTexts(map[], target) == {text} && ConfigTexts(map[], target) == {text} &&
           RemoveTexts(map[], target) == {};
    assert Elements([text]) == {text} && Elements<string>([]) == {};
    assert diff.peerConfigs[..1] == diff.peerConfigs && diff.peerConfigs[1..] == [];
    assert DiffInOrder(map[], target, diff, [text], [text]);
  }

  /** Adding a user of whom the store has nothing goes through. */
  lemma AddingGoesThrough(iface: Interface, s: State, text: string, k: Key, net: IPNet)
    requires ParseKey(text) == Some(k) && text != "" && iface.allows(net)
    requires s.ready && TouchedPart(s.peers, {"b"}) == map[] && text !in s.peers
    ensures var users, diff := [PeerUser(iface, "b", text, net)], AddingDiff("b", text, k, net);
            PartialDone(iface, s, users, WantedPeer("b", text, k, net), diff, Committed(s, diff))
  {
    OneUserNormalized(iface, "b", text, net);
    OneUserWants(iface, "b", text, k, net);
    AddingIsDiff("b", text, k, net);
  }

  lemma RunOfTwo(iface: Interface, users: seq<User>, s: State, op: Op, s': State)
    requires Started(iface, users, s) && Step(iface, s, op, s')
    ensures IsRun(iface, users, [op], [s, s'])
  {
  }

  lemma PartialIsStep(iface: Interface, s: State, users: seq<User>, desired: map<string, DesiredPeer>, diff: SyncDiff,
                      s': State)
    requires PartialDone(iface, s, users, desired, diff, s')
    ensures Step(iface, s, Partial(users), s')
  {
  }

  lemma OnePeerIsGood(email: string, k: Key, p: Prefix)
    requires ParseKey(k) == Some(k)
    ensures Good(OnePeer(email, k, p))
  {
  }

  /** A clear spelling that takes a prefix of an untouched peer ends the agreement. */
  lemma TakingEndsAgreement(iface: Interface, s: State, users: seq<User>, desired: map<string, DesiredPeer>,
                            diff: SyncDiff, s': State)
    requires Good(s) && PartialDone(iface, s, users, desired, diff, s')
    requires NoStoredAlias(s.peers, desired) && OneTextAKey(desired) &&
             !LeavesOthersAlone(s.peers, Touched(users), desired)
    ensures !Good(s')
  {
    PartialReconciles(iface, s, users, desired, diff, s');
    PartialStepExact(iface, s, users, desired, diff, s');
  }

  lemma OnePeerTaken(k: Key, l: Key, net: IPNet)
    requires k != l
    ensures var peers, desired := OnePeer("a", k, Text(net)).peers, WantedPeer("b", l, l, net);
            NoStoredAlias(peers, desired) && OneTextAKey(desired) && !LeavesOthersAlone(peers, {"b"}, desired)
  {
    var peers, desired := OnePeer("a", k, Text(net)).peers, WantedPeer("b", l, l, net);
    assert Text(net) in peers[k].allowedIPs && Text(net) in desired[l].allowedIPNets;
  }

  /** The state after "b" joins "a". */
  ghost function Joined(k: Key, p: Prefix, text: string, l: Key, net: IPNet): State {
    Committed(OnePeer("a", k, p), AddingDiff("b", text, l, net))
  }

  lemma JoiningGoesThrough(iface: Interface, k: Key, p: Prefix, text: string, l: Key, net: IPNet)
    requires ParseKey(text) == Some(l) && text != "" && text != k && iface.allows(net)
    ensures PartialDone(iface, OnePeer("a", k, p), [PeerUser(iface, "b", text, net)], WantedPeer("b", text, l, net),
                        AddingDiff("b", text, l, net), Joined(k, p, text, l, net))
  {
    assert TouchedPart(OnePeer("a", k, p).peers, {"b"}) == map[];
    AddingGoesThrough(iface, OnePeer("a", k, p), text, l, net);
  }

  /** Starting with "a" and adding "b" is a run that begins in agreement. */
  lemma JoiningIsRun(iface: Interface, k: Key, net: IPNet, text: string, l: Key, net': IPNet)
    requires Canonical(k) && iface.allows(net) && ParseKey(text) == Some(l) && text != "" && text != k &&
             iface.allows(net')
    ensures IsRun(iface, [PeerUser(iface, "a", k, net)], [Partial([PeerUser(iface, "b", text, net')])],
                  [OnePeer("a", k, Text(net)), Joined(k, Text(net), text, l, net')])
    ensures Good(OnePeer("a", k, Text(net)))
  {
    var s, s' := OnePeer("a", k, Text(net)), Joined(k, Text(net), text, l, net');
    var users := [PeerUser(iface, "b", text, net')];
    ParsePrinted(k);
    OnePeerIsGood("a", k, Text(net));
    OneUserStarts(iface, "a", k, net);
    JoiningGoesThrough(iface, k, Text(net), text, l, net');
    PartialIsStep(iface, s, users, WantedPeer("b", text, l, net'), AddingDiff("b", text, l, net'), s');
    RunOfTwo(iface, [PeerUser(iface, "a", k, net)], s, Partial(users), s');
  }

  lemma JoiningTakes(iface: Interface, k: Key, l: Key, net: IPNet)
    requires Canonical(k) && Canonical(l) && k != l && iface.allows(net)
    ensures !Good(Joined(k, Text(net), l, l, net))
  {
    ParsePrinted(k);
    ParsePrinted(l);
    OnePeerIsGood("a", k, Text(net));
    JoiningGoesThrough(iface, k, Text(net), l, l, net);
    OneUserNormalized(iface, "b", l, net);
    OnePeerTaken(k, l, net);
    TakingEndsAgreement(iface, OnePeer("a", k, Text(net)), [PeerUser(iface, "b", l, net)], WantedPeer("b", l, l, net),
                        AddingDiff("b", l, l, net), Joined(k, Text(net), l, l, net));
  }

  /** A new user with a stored peer's network ends the agreement of store and kernel. */
  lemma TakenPrefixBreaksAgreement(iface: Interface, k: Key, l: Key, net: IPNet)
    requires Canonical(k) && Canonical(l) && k != l && iface.allows(net)
    ensures exists s, s' ::
              && IsRun(iface, [PeerUser(iface, "a", k, net)], [Partial([PeerUser(iface, "b", l, net)])], [s, s'])
              && Good(s) && !Good(s')
  {
    ParsePrinted(l);
    JoiningIsRun(iface, k, net, l, l, net);
    JoiningTakes(iface, k, l, net);
  }

  lemma AliasReplaces(k: Key, p: Prefix, text: string, net: IPNet)
    ensures !OthersKept(OnePeer("a", k, p).peers, {"b"}, Joined(k, p, text, k, net).peers)
  {
    var s, ups := OnePeer("a", k, p), AddingDiff("b", text, k, net).upsertPeers;
    assert UpsertedAll(s.peers, ups[..0]) == s.peers && ups[..|ups| - 1] == ups[..0];
    assert s.peers - Elements<string>([]) == s.peers;
    assert Joined(k, p, text, k, net).peers == Upserted(s.peers, ups[0]);
    assert s.peers[k].email == "a" && Upserted(s.peers, ups[0])[k].email == "b";
  }

  /** A new user who spells a stored key with a line break takes that key's peer, though it touches only itself. */
  lemma AliasTakesPeer(iface: Interface, k: Key, net: IPNet, net': IPNet)
    requires Canonical(k) && iface.allows(net) && iface.allows(net')
    ensures exists s, s' ::
              && IsRun(iface, [PeerUser(iface, "a", k, net)], [Partial([PeerUser(iface, "b", k + "\n", net')])],
                       [s, s'])
              && Good(s) && !Respectful(s, Partial([PeerUser(iface, "b", k + "\n", net')]), s')
  {
    EveryKeyHasAnAlias(k);
    JoiningIsRun(iface, k, net, k + "\n", k, net');
    OneUserNormalized(iface, "b", k + "\n", net');
    AliasReplaces(k, Text(net), k + "\n", net');
  }
}
