/** The shared-core manager's state and what every operation keeps (shared/manager.go), as values. */
module SharedState {
  import opened Base
  import opened Common
  import opened XrayAccounts
  import opened XrayInbounds
  import XrayConfig
  import T = Tenants

  // ---- names --------------------------------------------------------------

  function Prefix(tenantID: string): string {
    "t" + tenantID + "."
  }

  function NamespacedEmail(tenantID: string, email: string): string {
    Prefix(tenantID) + email
  }

  /** An id that cannot be confused with another one inside a namespaced email. */
  predicate Dotless(id: string) {
    '.' !in id
  }

  /** A name carries the prefix of at most one dotless tenant. */
  lemma PrefixIsOneTenants(s: string, t: string, name: string)
    requires Dotless(s) && Dotless(t) && Prefix(s) <= name && Prefix(t) <= name
    ensures s == t
  {
    assert forall i :: 0 <= i < |s| ==> Prefix(s)[1 + i] == s[i] == name[1 + i];
    assert forall i :: 0 <= i < |t| ==> Prefix(t)[1 + i] == t[i] == name[1 + i];
    assert name[1 + |s|] == '.' && name[1 + |t|] == '.' by {
      assert Prefix(s)[1 + |s|] == '.' && Prefix(t)[1 + |t|] == '.';
    }
    assert |s| == |t|;
  }

  /** One prefix begins the other exactly if the ids are the same or one continues the other after a dot. */
  lemma PrefixesNest(s: string, t: string)
    ensures Prefix(s) <= Prefix(t) <==> s == t || s + "." <= t
  {
    var p, q := Prefix(s), Prefix(t);
    assert forall i :: 0 <= i < |s| ==> p[1 + i] == s[i];
    assert forall i :: 0 <= i < |t| ==> q[1 + i] == t[i];
    assert p[1 + |s|] == '.' && q[1 + |t|] == '.';
    if p <= q {
      assert forall i :: 0 <= i < |p| ==> p[i] == q[i];
      if |s| < |t| {
        assert forall i :: 0 <= i < |s| + 1 ==> (s + ".")[i] == t[i];
      } else {
        assert s == t;
      }
    }
    if s + "." <= t {
      assert forall i :: 0 <= i < |s| + 1 ==> (s + ".")[i] == t[i];
      assert forall i :: 0 <= i < |p| ==> p[i] == q[i];
    }
  }

  predicate Carries(name: string, id: string) {
    Prefix(id) <= name
  }

  /**
   * Some name carries the prefixes of both ids if and only if they are the same or one continues the other after a dot.
   */
  lemma IdsCollideExactly(s: string, t: string)
    ensures (exists name :: Carries(name, s) && Carries(name, t)) <==> s == t || s + "." <= t || t + "." <= s
  {
    PrefixesNest(s, t);
    PrefixesNest(t, s);
    if exists name :: Carries(name, s) && Carries(name, t) {
      var name :| Carries(name, s) && Carries(name, t);
      assert Prefix(s) == name[..|Prefix(s)|] && Prefix(t) == name[..|Prefix(t)|];
    }
    assert Carries(Prefix(s), s) && Carries(Prefix(t), t);
    assert Prefix(s) <= Prefix(t) ==> Carries(Prefix(t), s);
    assert Prefix(t) <= Prefix(s) ==> Carries(Prefix(s), t);
  }

  /** Then users of the two tenants share a name. */
  lemma CollidingIdsShareNames(s: string, rest: string, email: string)
    ensures NamespacedEmail(s, rest + "." + email) == NamespacedEmail(s + "." + rest, email)
  {
    assert "t" + s + "." + (rest + "." + email) == "t" + (s + "." + rest) + "." + email;
  }

  // ---- credentials --------------------------------------------------------

  datatype Kind = VmessKind | VlessKind | TrojanKind | ShadowsocksKind | HysteriaKind

  /** A protocol tag and the secret as the user's message spells it. */
  datatype Credential = Credential(kind: Kind, secret: string)

  const KINDS: set<Kind> := {VlessKind, VmessKind, TrojanKind, ShadowsocksKind, HysteriaKind}

  /** The secret a user carries for a protocol, empty if it has none. */
  function Secret(u: User, kind: Kind): string {
    var p := ProxyOf(u);
    match kind
    case VlessKind => if p.vless.Some? then p.vless.value.id else ""
    case VmessKind => if p.vmess.Some? then p.vmess.value else ""
    case TrojanKind => if p.trojan.Some? then p.trojan.value else ""
    case ShadowsocksKind => if p.shadowsocks.Some? then p.shadowsocks.value.password else ""
    case HysteriaKind => if p.hysteria.Some? then p.hysteria.value else ""
  }

  /** userCredentials */
  function Credentials(u: User): set<Credential> {
    set kind | kind in KINDS && Secret(u, kind) != "" :: Credential(kind, Secret(u, kind))
  }

  /** The credentials of a user, in the fields of its message: each secret that is there and not empty, once. */
  lemma CredentialsExactly(u: User, c: Credential)
    ensures c in Credentials(u) <==>
            && c.secret != "" && u.proxies.Some?
            && var p := u.proxies.value;
               match c.kind
               case VmessKind => p.vmess == Some(c.secret)
               case VlessKind => p.vless.Some? && p.vless.value.id == c.secret
               case TrojanKind => p.trojan == Some(c.secret)
               case ShadowsocksKind => p.shadowsocks.Some? && p.shadowsocks.value.password == c.secret
               case HysteriaKind => p.hysteria == Some(c.secret)
  {
    assert c.kind in KINDS;
  }

  // ---- state --------------------------------------------------------------

  /** One inbound of the live core: whom it would serve, and its client map. */
  datatype Inbound = Inbound(serve: User -> Option<Account>, clients: Clients) {
    function At(email: string): Option<Account> { if email in clients then Some(clients[email]) else None }
  }

  /** A user assigned to no inbound is served by none. */
  ghost predicate SoundInbound(ib: Inbound) {
    forall u: User :: u.inbounds == [] ==> ib.serve(u).None?
  }

  /** Every configured inbound is such: it serves only users assigned to its tag. */
  lemma ConfiguredInboundsAreSound(c: Codec, config: InboundConfig, clients: Clients)
    ensures SoundInbound(Inbound(XrayConfig.Serving(c, config), clients))
  {
  }

  /** The inbounds the core does not exclude. */
  type Core = seq<Inbound>

  datatype State = State(
    reg: T.Registry,
    users: map<string, map<string, User>>,
    emailTo: map<string, string>,
    creds: map<Credential, string>,
    lastSeen: map<string, nat>,
    forceInbounds: seq<string>,
    core: Option<Core>)
  {
    /** The users of a tenant, by namespaced email. */
    function Users(id: string): map<string, User> { if id in users then users[id] else map[] }

    predicate IsActive(id: string) { id in reg.byID && reg.byID[id].status == T.Active }
  }

  function Lookup<K, V>(m: map<K, V>, k: K): Option<V> { if k in m then Some(m[k]) else None }

  // ---- the invariant ------------------------------------------------------

  /** Tenants with users are registered, and every user carries its tenant's prefix and its own email. */
  ghost predicate Named(s: State) {
    && (forall id :: id in s.reg.byID ==> Dotless(id))
    && (forall id :: id in s.users ==> id in s.reg.byID)
    && (forall id, e :: id in s.users && e in s.users[id] ==> Prefix(id) <= e && s.users[id][e].email == e)
  }

  /** `emailTo` is exactly the inverse of the per-tenant user maps. */
  ghost predicate Inverse(s: State) {
    forall e, id :: Lookup(s.emailTo, e) == Some(id) <==> id in s.users && e in s.users[id]
  }

  /** Every credential of a stored user is indexed under a name of the same tenant. */
  ghost predicate CredsSound(s: State) {
    forall id, e, c :: id in s.users && e in s.users[id] && c in Credentials(s.users[id][e]) ==>
      c in s.creds && Prefix(id) <= s.creds[c]
  }

  /** The user an email stands for in the live core: its tenant is active. */
  ghost function DueUser(s: State, e: string): Option<User> {
    if e in s.emailTo && s.IsActive(s.emailTo[e]) && e in s.Users(s.emailTo[e]) then Some(s.Users(s.emailTo[e])[e])
    else None
  }

  /** The account that user has at an inbound, if the inbound serves it. */
  ghost function Due(ib: Inbound, u: Option<User>): Option<Account> {
    if u.Some? then ib.serve(u.value) else None
  }

  ghost predicate ExactAt(s: State, ib: Inbound) {
    SoundInbound(ib) && forall e :: ib.At(e) == Due(ib, DueUser(s, e))
  }

  /** The live core holds exactly the due accounts. */
  ghost predicate Exact(s: State) {
    s.core.Some? ==> forall i :: 0 <= i < |s.core.value| ==> ExactAt(s, s.core.value[i])
  }

  ghost predicate Invariant(s: State) {
    T.Consistent(s.reg) && Named(s) && Inverse(s) && CredsSound(s) && Exact(s)
  }

  /** Two tenants never hold one credential. */
  lemma CredentialsIsolated(s: State, id: string, e: string, id': string, e': string, c: Credential)
    requires Named(s) && CredsSound(s)
    requires id in s.users && e in s.users[id] && c in Credentials(s.users[id][e])
    requires id' in s.users && e' in s.users[id'] && c in Credentials(s.users[id'][e'])
    ensures id == id'
  {
    PrefixIsOneTenants(id, id', s.creds[c]);
  }

  /** No user of a suspended or unknown tenant is in the core, and every served user of an active tenant is. */
  lemma OnlyActiveTenantsServed(s: State, i: nat, id: string, e: string)
    requires Invariant(s) && s.core.Some? && i < |s.core.value| && id in s.users && e in s.users[id]
    ensures s.core.value[i].At(e) == if s.IsActive(id) then s.core.value[i].serve(s.users[id][e]) else None
  {
    assert Lookup(s.emailTo, e) == Some(id);
    assert ExactAt(s, s.core.value[i]);
  }

  lemma NobodyElseServed(s: State, i: nat, e: string)
    requires Invariant(s) && s.core.Some? && i < |s.core.value| && e in s.core.value[i].clients
    ensures exists id :: id in s.users && e in s.users[id] && s.IsActive(id)
  {
    assert ExactAt(s, s.core.value[i]) && s.core.value[i].At(e).Some?;
    var id := s.emailTo[e];
    assert Lookup(s.emailTo, e) == Some(id);
  }
}
