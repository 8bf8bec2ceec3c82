/** What unique credentials mean for the accounts in a shared inbound (userCredentials in shared/manager.go). */
module Isolation {
  import opened Base
  import opened Common
  import opened XrayAccounts
  import opened SharedState

  /** The protocol of an account and the secret it authenticates with. */
  function KindOf(a: Account): Kind {
    match a
    case VmessAccount(_, _) => VmessKind
    case VlessAccount(_, _, _) => VlessKind
    case TrojanAccount(_, _) => TrojanKind
    case ShadowsocksTcpAccount(_, _, _) => ShadowsocksKind
    case ShadowsocksAccount(_, _) => ShadowsocksKind
    case HysteriaAccount(_, _) => HysteriaKind
  }

  function SecretOf(a: Account): string {
    match a
    case VmessAccount(_, id) => id
    case VlessAccount(_, id, _) => id
    case TrojanAccount(_, password) => password
    case ShadowsocksTcpAccount(_, password, _) => password
    case ShadowsocksAccount(_, password) => password
    case HysteriaAccount(_, auth) => auth
  }

  /** What an inbound makes of a spelt secret: an id is parsed, a 2022 key normalised, any other kept. */
  function Meaning(c: Codec, ib: InboundConfig, kind: Kind, text: string): Option<string> {
    match kind
    case VmessKind => c.parseUuid(text)
    case VlessKind => c.parseUuid(text)
    case TrojanKind => Some(text)
    case ShadowsocksKind =>
      if ib.Is2022()
      then Some(EnsureBase64Password(c, EnsureBase64Password(c, text, ib.cipher.value), ib.cipher.value))
      else Some(text)
    case HysteriaKind => Some(text)
  }

  /** The secret of a user's account is what the inbound makes of the secret the user spells for that protocol. */
  lemma AccountSecret(c: Codec, ib: InboundConfig, u: User)
    requires Served(c, ib, u).Some?
    ensures var a := Served(c, ib, u).value; Meaning(c, ib, KindOf(a), Secret(u, KindOf(a))) == Some(SecretOf(a))
  {
  }

  /** A secret is spelt as the inbound understands it. */
  predicate SpeltAsMeant(c: Codec, ib: InboundConfig, kind: Kind, text: string) {
    Meaning(c, ib, kind, text) == Some(text)
  }

  /** Passwords kept as spelt always are; an id or a 2022 key is if it is in its parsed or normalised form. */
  lemma PlainSecretsAreMeant(c: Codec, ib: InboundConfig, kind: Kind, text: string)
    requires kind in {TrojanKind, HysteriaKind} || (kind == ShadowsocksKind && !ib.Is2022())
    ensures SpeltAsMeant(c, ib, kind, text)
  {
  }

  /** At a recognised 2022 method a key is spelt as meant exactly if it already decodes to the method's length. */
  lemma NormalisedKeysAreMeant(c: Codec, ib: InboundConfig, text: string)
    requires c.Lawful() && ib.Is2022() && Recognised(ib.cipher.value)
    ensures SpeltAsMeant(c, ib, ShadowsocksKind, text) <==> RightLength(c, text, ib.cipher.value)
  {
    NormaliserIdempotent(c, text, ib.cipher.value);
    NormaliserIdempotent(c, EnsureBase64Password(c, text, ib.cipher.value), ib.cipher.value);
  }

  lemma CarriesSecret(u: User, kind: Kind)
    requires Secret(u, kind) != ""
    ensures Credential(kind, Secret(u, kind)) in Credentials(u)
  {
    assert kind in KINDS;
  }

  /** Both users have an account of one protocol at the inbound. */
  ghost predicate BothServed(c: Codec, ib: InboundConfig, u: User, v: User, kind: Kind) {
    && Served(c, ib, u).Some? && KindOf(Served(c, ib, u).value) == kind
    && Served(c, ib, v).Some? && KindOf(Served(c, ib, v).value) == kind
  }

  ghost predicate SameSecret(c: Codec, ib: InboundConfig, u: User, v: User) {
    && Served(c, ib, u).Some? && Served(c, ib, v).Some?
    && SecretOf(Served(c, ib, u).value) == SecretOf(Served(c, ib, v).value)
  }

  /** One account secret means that the spelt secrets mean the same. */
  lemma SecretsByMeaning(c: Codec, ib: InboundConfig, u: User, v: User, kind: Kind)
    requires BothServed(c, ib, u, v, kind)
    ensures SameSecret(c, ib, u, v) <==> Meaning(c, ib, kind, Secret(u, kind)) == Meaning(c, ib, kind, Secret(v, kind))
  {
    AccountSecret(c, ib, u);
    AccountSecret(c, ib, v);
  }

  /** Users of two tenants never spell one secret, unless they spell none. */
  lemma SpellingsIsolated(s: State, id: string, e: string, id': string, e': string, kind: Kind)
    requires Named(s) && CredsSound(s) && id != id'
    requires id in s.users && e in s.users[id] && id' in s.users && e' in s.users[id']
    ensures Secret(s.users[id][e], kind) == Secret(s.users[id'][e'], kind) ==> Secret(s.users[id][e], kind) == ""
  {
    var u, v := s.users[id][e], s.users[id'][e'];
    if Secret(u, kind) == Secret(v, kind) != "" {
      CarriesSecret(u, kind);
      CarriesSecret(v, kind);
      CredentialsIsolated(s, id, e, id', e', Credential(kind, Secret(u, kind)));
    }
  }

  /**
   * Users of two tenants have one account secret at an inbound if and only if both spell an empty secret, or they spell
   * different secrets that mean the same there.
   */
  lemma AccountsIsolated(s: State, c: Codec, ib: InboundConfig, id: string, e: string, id': string, e': string,
                         kind: Kind)
    requires Named(s) && CredsSound(s) && id != id'
    requires id in s.users && e in s.users[id] && id' in s.users && e' in s.users[id']
    requires BothServed(c, ib, s.users[id][e], s.users[id'][e'], kind)
    ensures var u, v := s.users[id][e], s.users[id'][e'];
            SameSecret(c, ib, u, v) <==>
            || (Secret(u, kind) == "" && Secret(v, kind) == "")
            || (Secret(u, kind) != Secret(v, kind) &&
                Meaning(c, ib, kind, Secret(u, kind)) == Meaning(c, ib, kind, Secret(v, kind)))
  {
    SecretsByMeaning(c, ib, s.users[id][e], s.users[id'][e'], kind);
    SpellingsIsolated(s, id, e, id', e', kind);
  }

  /** So users of two tenants who spell their secrets as meant, and spell some, never share an account secret. */
  lemma CanonicalAccountsIsolated(s: State, c: Codec, ib: InboundConfig, id: string, e: string, id': string, e': string,
                                  kind: Kind)
    requires Named(s) && CredsSound(s) && id != id'
    requires id in s.users && e in s.users[id] && id' in s.users && e' in s.users[id']
    requires BothServed(c, ib, s.users[id][e], s.users[id'][e'], kind)
    requires SpeltAsMeant(c, ib, kind, Secret(s.users[id][e], kind)) && Secret(s.users[id][e], kind) != ""
    requires SpeltAsMeant(c, ib, kind, Secret(s.users[id'][e'], kind))
    ensures !SameSecret(c, ib, s.users[id][e], s.users[id'][e'])
  {
    AccountsIsolated(s, c, ib, id, e, id', e', kind);
  }

  /** Two spellings of one id give users with no common credential one account id: the index compares spellings. */
  lemma SpellingsPassTheCheck(c: Codec, ib: InboundConfig, x: string, y: string, a: string, b: string)
    requires ib.protocol == VlessProtocol && x != y && c.parseUuid(x).Some? && c.parseUuid(x) == c.parseUuid(y)
    ensures var u := User(a, Some(Proxy(None, Some(Vless(x, "")), None, None, None, None)), [ib.tag]);
            var v := User(b, Some(Proxy(None, Some(Vless(y, "")), None, None, None, None)), [ib.tag]);
            SameSecret(c, ib, u, v) && Credentials(u) !! Credentials(v)
  {
    var u := User(a, Some(Proxy(None, Some(Vless(x, "")), None, None, None, None)), [ib.tag]);
    var v := User(b, Some(Proxy(None, Some(Vless(y, "")), None, None, None, None)), [ib.tag]);
    assert ActiveAccount(c, ib, u) == NewVless(c, u) && ActiveAccount(c, ib, v) == NewVless(c, v);
    forall k | k in Credentials(u) ensures k !in Credentials(v) {
      assert k == Credential(VlessKind, x);
    }
  }

  /** An empty password is served and not indexed: two users without any credential have one account secret. */
  lemma EmptySecretsPassTheCheck(c: Codec, ib: InboundConfig, a: string, b: string)
    requires ib.protocol == TrojanProtocol
    ensures var u := User(a, Some(Proxy(None, None, Some(""), None, None, None)), [ib.tag]);
            var v := User(b, Some(Proxy(None, None, Some(""), None, None, None)), [ib.tag]);
            SameSecret(c, ib, u, v) && Credentials(u) == {} && Credentials(v) == {}
  {
    var u := User(a, Some(Proxy(None, None, Some(""), None, None, None)), [ib.tag]);
    var v := User(b, Some(Proxy(None, None, Some(""), None, None, None)), [ib.tag]);
    assert ActiveAccount(c, ib, u) == NewTrojan(u) && ActiveAccount(c, ib, v) == NewTrojan(v);
    assert forall kind :: Secret(u, kind) == "" && Secret(v, kind) == "";
  }
}
