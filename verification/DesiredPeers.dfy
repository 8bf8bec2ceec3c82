/** From a request's users to the peers it asks for (backend/wireguard/user_common.go). */
module DesiredPeers {
  import opened Base
  import opened Keys
  import opened Networks
  import opened Common

  /** The interface's name and its test for peer networks. */
  datatype Interface = Interface(name: string, allows: IPNet -> bool)

  /** An interface whose address list parses to `networks`. */
  function Serving(name: string, networks: seq<IPNet>): Interface {
    Interface(name, (net: IPNet) => AllowedOnInterface(net, networks))
  }

  /** Such an interface takes a peer's network exactly if it has none itself or one that covers it. */
  lemma ServingAllowsExactly(name: string, networks: seq<IPNet>, net: IPNet)
    ensures Serving(name, networks).allows(net) <==>
            |networks| == 0 ||
            exists pool ::
              pool in networks && Covers(pool, net) && (Mapped(net.wide, net.addr) ==> Mapped(pool.wide, pool.addr))
  {
    AllowedExactly(net, networks);
  }

  // ---- normalizeUsers -----------------------------------------------------

  predicate Usable(u: User) {
    && u.email != ""
    && u.proxies.Some? && u.proxies.value.wireguard.Some?
    && WireguardOf(u).publicKey != ""
    && |WireguardOf(u).peerIps| != 0
  }

  /** The usable user at `i`, with no usable user of the same email after it. */
  ghost predicate LastAt(users: seq<User>, i: int, u: User) {
    0 <= i < |users| && users[i] == u && Usable(u) &&
    forall j :: i < j < |users| && Usable(users[j]) ==> users[j].email != u.email
  }

  ghost predicate LastOfItsEmail(users: seq<User>, u: User) {
    exists i :: LastAt(users, i, u)
  }

  /** For every email the last usable user wins; the order of the result is not fixed. */
  method NormalizeUsers(users: seq<User>) returns (normalized: seq<User>)
    ensures DistinctEmails(normalized)
    ensures forall u :: u in normalized <==> LastOfItsEmail(users, u)
  {
    var lastByEmail: map<string, User> := map[];
    for i := 0 to |users|
      invariant forall e :: e in lastByEmail ==> lastByEmail[e].email == e
      invariant forall u: User ::
                  (u.email in lastByEmail && lastByEmail[u.email] == u) <==> LastOfItsEmail(users[..i], u)
    {
      LastGrows(users, i);
      var u := users[i];
      if u.email != "" && u.proxies.Some? && u.proxies.value.wireguard.Some? {
        var wg := u.proxies.value.wireguard.value;
        if wg.publicKey != "" && |wg.peerIps| != 0 {
          lastByEmail := lastByEmail[u.email := u];
        }
      }
    }
    assert users[..|users|] == users;
    var emails := Enumerate(lastByEmail.Keys);
    normalized := seq(|emails|,
                      i requires 0 <= i < |emails| => assert emails[i] in Elements(emails); lastByEmail[emails[i]]);
    forall u ensures u in normalized <==> LastOfItsEmail(users, u) {
      if LastOfItsEmail(users, u) {
        assert u.email in Elements(emails);
        var i :| 0 <= i < |emails| && emails[i] == u.email;
        assert normalized[i] == u;
      }
    }
  }

  lemma LastGrows(users: seq<User>, n: nat)
    requires n < |users|
    ensures forall u :: LastOfItsEmail(users[..n + 1], u) <==>
                        if Usable(users[n]) && users[n].email == u.email then u == users[n]
                     else LastOfItsEmail(users[..n], u)
  {
    forall u ensures LastOfItsEmail(users[..n + 1], u) <==>
                     if Usable(users[n]) && users[n].email == u.email then u == users[n]
                     else LastOfItsEmail(users[..n], u)
    {
      LastStays(users, n, u);
    }
  }

  lemma LastStays(users: seq<User>, n: nat, u: User)
    requires n < |users|
    ensures LastOfItsEmail(users[..n + 1], u) <==>
            if Usable(users[n]) && users[n].email == u.email then u == users[n] else LastOfItsEmail(users[..n], u)
  {
    var now, next := users[..n], users[..n + 1];
    if Usable(users[n]) && users[n].email == u.email {
      if u == users[n] {
        assert LastAt(next, n, u);
      } else {
        assert forall i :: 0 <= i < n ==> !LastAt(next, i, u) by {
          assert next[n] == users[n];
        }
        assert !LastAt(next, n, u);
      }
    } else {
      forall i ensures LastAt(now, i, u) <==> LastAt(next, i, u) {
        assert forall k :: 0 <= k < n ==> now[k] == next[k];
        assert next[n] == users[n];
      }
    }
  }

  // ---- what one user asks for ---------------------------------------------

  datatype DesiredPeer = DesiredPeer(email: string, publicKey: string, parsedKey: Key, allowedIPNets: seq<Prefix>)

  predicate Included(iface: Interface, u: User) {
    iface.name in u.inbounds && ParseKey(WireguardOf(u).publicKey).Some?
  }

  /** The networks of a list that lie on the interface. */
  function OnInterface(iface: Interface, ips: seq<Cidr>): seq<Prefix> {
    if ips == [] then []
    else
      var last := ips[|ips| - 1];
      OnInterface(iface, ips[..|ips| - 1]) +
      if last.Cidr? && iface.allows(last.net) then [Text(last.net)] else []
  }

  /** The reading stops at the first malformed text. */
  function Readable(ips: seq<Cidr>): (n: nat)
    ensures n <= |ips|
    ensures forall i :: 0 <= i < n ==> ips[i].Cidr?
    ensures n < |ips| ==> ips[n].BadCidr?
  {
    if ips == [] || ips[0].BadCidr? then 0 else 1 + Readable(ips[1..])
  }

  function Accepted(iface: Interface, u: User): seq<Prefix> {
    var ips := WireguardOf(u).peerIps;
    OnInterface(iface, ips[..Readable(ips)])
  }

  /**
   * What one user asks for: the prefixes it reserves, and its peer if it gets one. A user with a malformed address
   * gets no peer but still reserves the prefixes before that address.
   */
  datatype Ask = Ask(email: string, claims: set<Prefix>, peer: Option<DesiredPeer>)

  function AskOf(iface: Interface, u: User): Ask {
    var wg := WireguardOf(u);
    if !Included(iface, u) then Ask(u.email, {}, None)
    else
      var nets := Accepted(iface, u);
      Ask(u.email, Elements(nets),
          if Readable(wg.peerIps) < |wg.peerIps| || nets == [] then None
          else Some(DesiredPeer(u.email, wg.publicKey, ParseKey(wg.publicKey).value, nets)))
  }

  function Asks(iface: Interface, users: set<User>): set<Ask> {
    set u | u in users :: AskOf(iface, u)
  }

  /** Two users cannot both be served. */
  predicate Clash(a: Ask, b: Ask) {
    || a.claims * b.claims != {}
    || (a.peer.Some? && b.peer.Some? && a.peer.value.publicKey == b.peer.value.publicKey)
  }

  ghost predicate Conflicted(asks: set<Ask>) {
    exists a, b :: a in asks && b in asks && a.email != b.email && Clash(a, b)
  }

  /** `m` holds exactly the peers asked for. */
  ghost predicate Collects(asks: set<Ask>, m: map<string, DesiredPeer>) {
    && (forall a :: a in asks && a.peer.Some? ==>
          a.peer.value.publicKey in m && m[a.peer.value.publicKey] == a.peer.value)
    && (forall pk :: pk in m ==> exists a :: a in asks && a.peer == Some(m[pk]) && m[pk].publicKey == pk)
  }

  /** The outcome of collecting is a function of what is asked. */
  lemma CollectsOnce(asks: set<Ask>, m: map<string, DesiredPeer>, n: map<string, DesiredPeer>)
    requires Collects(asks, m) && Collects(asks, n)
    ensures m == n
  {
  }

  /** What a request for peers looks like: parsed keys, no empty list, one peer an email, no prefix at two peers. */
  ghost predicate WellCollected(m: map<string, DesiredPeer>) {
    && (forall pk :: pk in m ==>
          m[pk].publicKey == pk && ParseKey(pk) == Some(m[pk].parsedKey) && m[pk].allowedIPNets != [])
    && (forall j, k :: j in m && k in m && j != k ==>
          m[j].email != m[k].email && forall p :: !(p in m[j].allowedIPNets && p in m[k].allowedIPNets))
  }

  /** The peer belongs to the email and reserves its own prefixes. */
  ghost predicate SoundAsk(a: Ask) {
    a.peer.Some? ==>
      && a.peer.value.email == a.email
      && ParseKey(a.peer.value.publicKey) == Some(a.peer.value.parsedKey)
      && a.peer.value.allowedIPNets != []
      && forall p :: p in a.peer.value.allowedIPNets ==> p in a.claims
  }

  lemma AskIsSound(iface: Interface, u: User)
    ensures SoundAsk(AskOf(iface, u)) && AskOf(iface, u).email == u.email
  {
  }

  lemma CollectedShape(asks: set<Ask>, m: map<string, DesiredPeer>)
    requires Collects(asks, m) && !Conflicted(asks)
    requires forall a :: a in asks ==> SoundAsk(a)
    requires forall a, b :: a in asks && b in asks && a.email == b.email ==> a == b
    ensures WellCollected(m)
  {
    forall pk | pk in m
      ensures m[pk].publicKey == pk && ParseKey(pk) == Some(m[pk].parsedKey) && m[pk].allowedIPNets != []
    {
      var a :| a in asks && a.peer == Some(m[pk]) && m[pk].publicKey == pk;
    }
    forall j, k | j in m && k in m && j != k
      ensures m[j].email != m[k].email && forall p :: !(p in m[j].allowedIPNets && p in m[k].allowedIPNets)
    {
      var a :| a in asks && a.peer == Some(m[j]) && m[j].publicKey == j;
      var b :| b in asks && b.peer == Some(m[k]) && m[k].publicKey == k;
      assert !Clash(a, b);
      assert forall p :: p in a.claims && p in b.claims ==> p in a.claims * b.claims;
    }
  }

  // ---- the same in the fields of a user -----------------------------------

  /** An address text that is well-formed and lies on the interface. */
  predicate OnLink(iface: Interface, ip: Cidr) {
    ip.Cidr? && iface.allows(ip.net)
  }

  /** `nets` are the networks of exactly the texts on the interface, at `places`, in order. */
  ghost predicate SelectsAt(iface: Interface, ips: seq<Cidr>, places: seq<int>, nets: seq<Prefix>) {
    && |places| == |nets|
    && (forall j :: 0 <= j < |places| ==>
          0 <= places[j] < |ips| && OnLink(iface, ips[places[j]]) && nets[j] == Text(ips[places[j]].net))
    && (forall j, k :: 0 <= j < k < |places| ==> places[j] < places[k])
    && (forall i :: 0 <= i < |ips| && OnLink(iface, ips[i]) ==> i in places)
  }

  ghost predicate Selects(iface: Interface, ips: seq<Cidr>, nets: seq<Prefix>) {
    exists places :: SelectsAt(iface, ips, places, nets)
  }

  /** The user gets a peer: assigned to the interface, a key that parses, no malformed address, one on the link. */
  ghost predicate GetsPeer(iface: Interface, u: User) {
    && iface.name in u.inbounds && u.proxies.Some? && u.proxies.value.wireguard.Some?
    && var wg := u.proxies.value.wireguard.value;
       && ParseKey(wg.publicKey).Some?
       && (forall i :: 0 <= i < |wg.peerIps| ==> wg.peerIps[i].Cidr?)
       && exists i :: 0 <= i < |wg.peerIps| && OnLink(iface, wg.peerIps[i])
  }

  /** `peer` is that peer: the user's email and key, and the networks of its addresses on the interface, in order. */
  ghost predicate Gets(iface: Interface, u: User, peer: DesiredPeer) {
    && GetsPeer(iface, u) && peer.email == u.email
    && var wg := u.proxies.value.wireguard.value;
       && peer.publicKey == wg.publicKey && ParseKey(wg.publicKey) == Some(peer.parsedKey)
       && Selects(iface, wg.peerIps, peer.allowedIPNets)
  }

  /** A well-formed address on the interface, with no malformed one before it. */
  ghost predicate ReservesAt(iface: Interface, ips: seq<Cidr>, i: int, p: Prefix) {
    0 <= i < |ips| && (forall j :: 0 <= j <= i ==> ips[j].Cidr?) && iface.allows(ips[i].net) && p == Text(ips[i].net)
  }

  /** The user reserves the prefix, whether or not it gets a peer. */
  ghost predicate Reserving(iface: Interface, u: User, p: Prefix) {
    && iface.name in u.inbounds && u.proxies.Some? && u.proxies.value.wireguard.Some?
    && var wg := u.proxies.value.wireguard.value;
       ParseKey(wg.publicKey).Some? && exists i :: ReservesAt(iface, wg.peerIps, i, p)
  }

  /** Two users of different emails reserve one prefix, or get a peer under one key text. */
  ghost predicate Contend(iface: Interface, u: User, v: User) {
    && u.email != v.email
    && (|| (exists p :: Reserving(iface, u, p) && Reserving(iface, v, p))
        || (GetsPeer(iface, u) && GetsPeer(iface, v) &&
            u.proxies.value.wireguard.value.publicKey == v.proxies.value.wireguard.value.publicKey))
  }

  lemma {:induction false} OnInterfaceSelects(iface: Interface, ips: seq<Cidr>) returns (places: seq<int>)
    ensures SelectsAt(iface, ips, places, OnInterface(iface, ips))
  {
    places := [];
    if ips != [] {
      var n := |ips| - 1;
      places := OnInterfaceSelects(iface, ips[..n]);
      if OnLink(iface, ips[n]) {
        places := places + [n];
      }
    }
  }

  /** The places on the interface, and so the networks, are determined by the texts. */
  lemma {:induction false} SelectsOnce(iface: Interface, ips: seq<Cidr>, places: seq<int>, nets: seq<Prefix>,
                                       places': seq<int>, nets': seq<Prefix>)
    requires SelectsAt(iface, ips, places, nets) && SelectsAt(iface, ips, places', nets')
    ensures nets == nets'
  {
    assert Elements(places) == Elements(places');
    SamePlaces(places, places');
  }

  ghost predicate Ascending(a: seq<int>) {
    forall j, k :: 0 <= j < k < |a| ==> a[j] < a[k]
  }

  lemma {:induction false} SamePlaces(a: seq<int>, b: seq<int>)
    requires Ascending(a) && Ascending(b) && Elements(a) == Elements(b)
    ensures a == b
  {
    EmptyList(a);
    EmptyList(b);
    if a != [] {
      var m, n := |a| - 1, |b| - 1;
      assert a[m] in Elements(a) && b[n] in Elements(b);
      LastIsLargest(a);
      LastIsLargest(b);
      assert a == a[..m] + [a[m]] && b == b[..n] + [b[n]];
      SamePlaces(a[..m], b[..n]);
    }
  }

  lemma LastIsLargest(a: seq<int>)
    requires Ascending(a) && a != []
    ensures forall x :: x in Elements(a) ==> x <= a[|a| - 1]
    ensures Elements(a[..|a| - 1]) == Elements(a) - {a[|a| - 1]}
  {
  }

  lemma SelectsSome(iface: Interface, ips: seq<Cidr>, places: seq<int>, nets: seq<Prefix>)
    requires SelectsAt(iface, ips, places, nets)
    ensures nets != [] <==> exists i :: 0 <= i < |ips| && OnLink(iface, ips[i])
  {
    if nets != [] {
      assert OnLink(iface, ips[places[0]]);
    }
  }

  /** What a user asks for is the peer it gets. */
  lemma AskExactly(iface: Interface, u: User)
    ensures AskOf(iface, u).peer.Some? <==> GetsPeer(iface, u)
    ensures AskOf(iface, u).peer.Some? ==> Gets(iface, u, AskOf(iface, u).peer.value)
  {
    var ips := WireguardOf(u).peerIps;
    var places := OnInterfaceSelects(iface, ips);
    SelectsSome(iface, ips, places, OnInterface(iface, ips));
    EmptyDoesNotParse();
    if forall i :: 0 <= i < |ips| ==> ips[i].Cidr? {
      ReadableUnique(ips, |ips|);
      assert ips[..|ips|] == ips;
    }
  }

  lemma EmptyDoesNotParse()
    ensures ParseKey("").None?
  {
  }

  lemma {:induction false} OnInterfaceHolds(iface: Interface, ips: seq<Cidr>, p: Prefix)
    ensures p in OnInterface(iface, ips) <==>
            exists i :: 0 <= i < |ips| && OnLink(iface, ips[i]) && p == Text(ips[i].net)
  {
    if ips != [] {
      var init := ips[..|ips| - 1];
      OnInterfaceHolds(iface, init, p);
      assert forall i :: 0 <= i < |init| ==> init[i] == ips[i];
    }
  }

  lemma ClaimExactly(iface: Interface, u: User, p: Prefix)
    ensures p in AskOf(iface, u).claims <==> Reserving(iface, u, p)
  {
    EmptyDoesNotParse();
    var ips := WireguardOf(u).peerIps;
    var n := Readable(ips);
    OnInterfaceHolds(iface, ips[..n], p);
    if i :| 0 <= i < n && OnLink(iface, ips[i]) && p == Text(ips[i].net) {
      assert ReservesAt(iface, ips, i, p);
    }
    if i :| ReservesAt(iface, ips, i, p) {
      assert i < n && ips[..n][i] == ips[i];
    }
  }

  /** Two users clash exactly if they contend. */
  lemma ClashExactly(iface: Interface, u: User, v: User)
    ensures u.email != v.email && Clash(AskOf(iface, u), AskOf(iface, v)) <==> Contend(iface, u, v)
  {
    AskExactly(iface, u);
    AskExactly(iface, v);
    var a, b := AskOf(iface, u).claims, AskOf(iface, v).claims;
    if p :| p in a * b {
      ClaimExactly(iface, u, p);
      ClaimExactly(iface, v, p);
    }
    if p :| Reserving(iface, u, p) && Reserving(iface, v, p) {
      ClaimExactly(iface, u, p);
      ClaimExactly(iface, v, p);
      assert p in a * b;
    }
  }

  /** Some two of the users contend. */
  ghost predicate Contested(iface: Interface, users: set<User>) {
    exists u, v :: u in users && v in users && Contend(iface, u, v)
  }

  lemma ConflictExactly(iface: Interface, users: set<User>)
    ensures Conflicted(Asks(iface, users)) <==> Contested(iface, users)
  {
    if Conflicted(Asks(iface, users)) {
      ConflictIsContest(iface, users);
    }
    if Contested(iface, users) {
      var u, v :| u in users && v in users && Contend(iface, u, v);
      ContestIsConflict(iface, users, u, v);
    }
  }

  lemma ConflictIsContest(iface: Interface, users: set<User>)
    requires Conflicted(Asks(iface, users))
    ensures Contested(iface, users)
  {
    var a, b :| a in Asks(iface, users) && b in Asks(iface, users) && a.email != b.email && Clash(a, b);
    var u :| u in users && AskOf(iface, u) == a;
    var v :| v in users && AskOf(iface, v) == b;
    ClashExactly(iface, u, v);
  }

  lemma ContestIsConflict(iface: Interface, users: set<User>, u: User, v: User)
    requires u in users && v in users && Contend(iface, u, v)
    ensures Conflicted(Asks(iface, users))
  {
    ClashExactly(iface, u, v);
    AskIsSound(iface, u);
    AskIsSound(iface, v);
    assert AskOf(iface, u) in Asks(iface, users) && AskOf(iface, v) in Asks(iface, users);
  }

  /** `m` holds a peer for every user that gets one, under its key text, and no other peer. */
  ghost predicate Serves(iface: Interface, users: set<User>, m: map<string, DesiredPeer>) {
    && (forall u :: u in users && GetsPeer(iface, u) ==>
          var pk := u.proxies.value.wireguard.value.publicKey; pk in m && Gets(iface, u, m[pk]))
    && (forall pk :: pk in m ==> exists u :: u in users && Gets(iface, u, m[pk]) && m[pk].publicKey == pk)
  }

  lemma CollectsExactly(iface: Interface, users: set<User>, m: map<string, DesiredPeer>)
    requires Collects(Asks(iface, users), m)
    ensures Serves(iface, users, m)
  {
    forall u | u in users && GetsPeer(iface, u)
      ensures var pk := u.proxies.value.wireguard.value.publicKey; pk in m && Gets(iface, u, m[pk])
    {
      AskExactly(iface, u);
      assert AskOf(iface, u) in Asks(iface, users);
    }
    forall pk | pk in m ensures exists u :: u in users && Gets(iface, u, m[pk]) && m[pk].publicKey == pk {
      var a :| a in Asks(iface, users) && a.peer == Some(m[pk]) && m[pk].publicKey == pk;
      var u :| u in users && AskOf(iface, u) == a;
      AskExactly(iface, u);
    }
  }

  // ---- collectDesiredPeers ------------------------------------------------

  /** Every claimed prefix is entered under its claimant's email, and nothing else is. */
  ghost predicate Reserves(asks: set<Ask>, seen: map<Prefix, string>) {
    && (forall a, p :: a in asks && p in a.claims ==> p in seen && seen[p] == a.email)
    && (forall p :: p in seen ==> exists a :: a in asks && p in a.claims && seen[p] == a.email)
  }

  lemma OnInterfaceGrows(iface: Interface, ips: seq<Cidr>, i: nat)
    requires i < |ips|
    ensures OnInterface(iface, ips[..i + 1]) ==
            if ips[i].Cidr? && iface.allows(ips[i].net)
            then OnInterface(iface, ips[..i]) + [Text(ips[i].net)] else OnInterface(iface, ips[..i])
  {
    assert ips[..i + 1][..i] == ips[..i];
  }

  lemma {:induction false} ReadableUnique(ips: seq<Cidr>, n: nat)
    requires n <= |ips| && (forall i :: 0 <= i < n ==> ips[i].Cidr?) && (n < |ips| ==> ips[n].BadCidr?)
    ensures Readable(ips) == n
  {
  }

  /** `after` is `seen` with one user's networks entered. */
  ghost predicate Entered(seen: map<Prefix, string>, nets: seq<Prefix>, email: string, after: map<Prefix, string>) {
    && (forall p :: p in after <==> p in seen || p in nets)
    && (forall p :: p in nets ==> p in after && after[p] == email)
    && (forall p :: p in seen && p !in nets ==> p in after && after[p] == seen[p])
  }

  ghost predicate Free(seen: map<Prefix, string>, nets: seq<Prefix>) {
    forall p :: p in nets ==> p !in seen
  }

  /** The inner loop: reserves one user's prefixes until a malformed text, or reports a prefix another email holds. */
  method Reserve(iface: Interface, email: string, ips: seq<Cidr>, seen0: map<Prefix, string>)
    returns (duplicate: Option<Prefix>, seen: map<Prefix, string>, nets: seq<Prefix>, malformed: bool)
    requires forall p :: p in seen0 ==> seen0[p] != email
    ensures duplicate.Some? ==> duplicate.value in OnInterface(iface, ips[..Readable(ips)]) && duplicate.value in seen0
    ensures duplicate.None? ==>
              && nets == OnInterface(iface, ips[..Readable(ips)])
              && Free(seen0, nets)
              && malformed == (Readable(ips) < |ips|)
              && Entered(seen0, nets, email, seen)
  {
    seen, nets, malformed, duplicate := seen0, [], false, None;
    var i := 0;
    while i < |ips| && !malformed
      invariant i <= |ips|
      invariant forall j :: 0 <= j < i ==> ips[j].Cidr?
      invariant malformed ==> i < |ips| && ips[i].BadCidr?
      invariant nets == OnInterface(iface, ips[..i])
      invariant Free(seen0, nets)
      invariant Entered(seen0, nets, email, seen)
      decreases |ips| - i, !malformed
    {
      if ips[i].BadCidr? {
        malformed := true;
      } else {
        OnInterfaceGrows(iface, ips, i);
        if iface.allows(ips[i].net) {
          var canonical := Text(ips[i].net);
          if canonical in seen && seen[canonical] != email {
            duplicate := Some(canonical);
            DuplicateStays(iface, ips, i);
            return;
          }
          seen := seen[canonical := email];
          nets := nets + [canonical];
        }
        i := i + 1;
      }
    }
    ReadableUnique(ips, i);
  }

  /** A network met before the first malformed text is among the accepted ones. */
  lemma {:induction false} DuplicateStays(iface: Interface, ips: seq<Cidr>, i: nat)
    requires i < |ips| && (forall j :: 0 <= j <= i ==> ips[j].Cidr?)
    requires iface.allows(ips[i].net)
    ensures Text(ips[i].net) in OnInterface(iface, ips[..Readable(ips)])
  {
    var n := Readable(ips);
    assert i < n by {
      assert n < |ips| ==> ips[n].BadCidr?;
    }
    OnInterfaceKeeps(iface, ips[..n], i);
  }

  lemma {:induction false} OnInterfaceKeeps(iface: Interface, ips: seq<Cidr>, i: nat)
    requires i < |ips| && ips[i].Cidr? && iface.allows(ips[i].net)
    ensures Text(ips[i].net) in OnInterface(iface, ips)
  {
    var init := ips[..|ips| - 1];
    if i < |init| {
      OnInterfaceKeeps(iface, init, i);
    }
  }

  lemma ClashGrows(asks: set<Ask>, a: Ask)
    requires !Conflicted(asks)
    requires forall b :: b in asks ==> !Clash(a, b)
    ensures !Conflicted(asks + {a})
  {
  }

  lemma ReservesGrows(asks: set<Ask>, a: Ask, nets: seq<Prefix>, seen: map<Prefix, string>, after: map<Prefix, string>)
    requires Reserves(asks, seen)
    requires a.claims == Elements(nets)
    requires Entered(seen, nets, a.email, after) && Free(seen, nets)
    ensures Reserves(asks + {a}, after)
  {
  }

  lemma CollectsGrows(asks: set<Ask>, a: Ask, m: map<string, DesiredPeer>)
    requires Collects(asks, m)
    requires a.peer.Some? ==> a.peer.value.publicKey !in m
    ensures Collects(asks + {a}, if a.peer.Some? then m[a.peer.value.publicKey := a.peer.value] else m)
  {
  }

  /** The loop's state after a set of users. */
  ghost predicate Progress(asks: set<Ask>, desired: map<string, DesiredPeer>, seen: map<Prefix, string>) {
    Collects(asks, desired) && Reserves(asks, seen) && !Conflicted(asks) && forall a :: a in asks ==> SoundAsk(a)
  }

  /** A user whose prefixes were free, and whose key was free if it gets a peer. */
  lemma ServedUser(asks: set<Ask>, a: Ask, nets: seq<Prefix>, desired: map<string, DesiredPeer>,
                   seen: map<Prefix, string>, after: map<Prefix, string>)
    requires Progress(asks, desired, seen) && SoundAsk(a)
    requires a.claims == Elements(nets)
    requires Entered(seen, nets, a.email, after) && Free(seen, nets)
    requires a.peer.Some? ==> a.peer.value.publicKey !in desired
    ensures Progress(asks + {a},
                     if a.peer.Some? then desired[a.peer.value.publicKey := a.peer.value] else desired, after)
  {
    CollectsGrows(asks, a, desired);
    ReservesGrows(asks, a, nets, seen, after);
    forall b | b in asks ensures !Clash(a, b) {
      assert forall p :: p in b.claims ==> p in seen;
    }
    ClashGrows(asks, a);
  }

  /** Two users that clash are a conflict of every larger set. */
  lemma ConflictSpreads(iface: Interface, users: seq<User>, i: nat, b: Ask)
    requires i < |users| && b in Asks(iface, Elements(users[..i]))
    requires AskOf(iface, users[i]).email != b.email && Clash(AskOf(iface, users[i]), b)
    ensures Conflicted(Asks(iface, Elements(users)))
  {
  }

  lemma AsksGrow(iface: Interface, users: seq<User>, i: nat)
    requires i < |users| && DistinctEmails(users)
    ensures Asks(iface, Elements(users[..i + 1])) == Asks(iface, Elements(users[..i])) + {AskOf(iface, users[i])}
    ensures forall b :: b in Asks(iface, Elements(users[..i])) ==> b.email != AskOf(iface, users[i]).email
  {
  }

  lemma AsksAreSound(iface: Interface, users: seq<User>)
    requires DistinctEmails(users)
    ensures forall a :: a in Asks(iface, Elements(users)) ==> SoundAsk(a)
    ensures forall a, b ::
              a in Asks(iface, Elements(users)) && b in Asks(iface, Elements(users)) && a.email == b.email ==> a == b
  {
  }

  /** One turn of the outer loop up to the key check: reads what the user asks for and reserves its prefixes. */
  method ReadAsk(iface: Interface, u: User, seen: map<Prefix, string>)
    returns (duplicate: Option<Prefix>, after: map<Prefix, string>, nets: seq<Prefix>, peer: Option<DesiredPeer>)
    requires forall p :: p in seen ==> seen[p] != u.email
    ensures duplicate.Some? ==> duplicate.value in AskOf(iface, u).claims && duplicate.value in seen
    ensures duplicate.None? ==>
              && AskOf(iface, u) == Ask(u.email, Elements(nets), peer)
              && Free(seen, nets)
              && Entered(seen, nets, u.email, after)
  {
    duplicate, after, nets, peer := None, seen, [], None;
    var pk := WireguardOf(u).publicKey;
    if iface.name in u.inbounds && ParseKey(pk).Some? {
      var malformed;
      duplicate, after, nets, malformed := Reserve(iface, u.email, WireguardOf(u).peerIps, seen);
      if duplicate.None? && !malformed && nets != [] {
        peer := Some(DesiredPeer(u.email, pk, ParseKey(pk).value, nets));
      }
    }
  }

  /**
   * Fails exactly when two users clash, and otherwise yields exactly the peers asked for: the outcome depends on
   * the set of users and not on the order they are visited in.
   */
  method CollectDesiredPeers(iface: Interface, users: seq<User>) returns (r: Result<map<string, DesiredPeer>, string>)
    requires DistinctEmails(users)
    ensures r.Err? <==> Conflicted(Asks(iface, Elements(users)))
    ensures r.Ok? ==> Collects(Asks(iface, Elements(users)), r.value) && WellCollected(r.value)
    ensures r.Err? <==> Contested(iface, Elements(users))
    ensures r.Ok? ==> Serves(iface, Elements(users), r.value)
  {
    ConflictExactly(iface, Elements(users));
    var desired: map<string, DesiredPeer>, seen: map<Prefix, string> := map[], map[];
    for i := 0 to |users|
      invariant Progress(Asks(iface, Elements(users[..i])), desired, seen)
    {
      var u := users[i];
      ghost var before, a := Asks(iface, Elements(users[..i])), AskOf(iface, u);
      AskIsSound(iface, u);
      AsksGrow(iface, users, i);
      var duplicate, after, nets, peer := ReadAsk(iface, u, seen);
      if duplicate.Some? {
        ghost var b :| b in before && duplicate.value in b.claims;
        assert duplicate.value in a.claims * b.claims;
        ConflictSpreads(iface, users, i, b);
        return Err("duplicate wireguard allowed IP");
      }
      if peer.Some? && peer.value.publicKey in desired && desired[peer.value.publicKey].email != u.email {
        ghost var b :| b in before && b.peer == Some(desired[peer.value.publicKey]);
        ConflictSpreads(iface, users, i, b);
        return Err("wireguard public key is assigned to multiple users");
      }
      ServedUser(before, a, nets, desired, seen, after);
      seen := after;
      if peer.Some? {
        desired := desired[peer.value.publicKey := peer.value];
      }
    }
    assert users[..|users|] == users;
    AsksAreSound(iface, users);
    CollectedShape(Asks(iface, Elements(users)), desired);
    CollectsExactly(iface, Elements(users), desired);
    r := Ok(desired);
  }
}
