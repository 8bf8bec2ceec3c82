/** Which account a user has at an inbound (backend/xray/user.go, backend/xray/api/account.go, common/helper.go). */
module XrayAccounts {
  import opened Base
  import opened Common

  /** UUID parsing, base64 and SHA-256, taken as given functions. */
  datatype Codec = Codec(
    parseUuid: string -> Option<string>,
    decode64: string -> Option<seq<nat>>,
    encode64: seq<nat> -> string,
    sha256: string -> seq<nat>)
  {
    ghost predicate Lawful() {
      && (forall b :: decode64(encode64(b)) == Some(b))
      && (forall s :: |sha256(s)| == 32)
    }
  }

  datatype Protocol =
    | VmessProtocol
    | VlessProtocol
    | TrojanProtocol
    | ShadowsocksProtocol
    | HysteriaProtocol
    | OtherProtocol

  /** The fixed part of an inbound; `cipher` is its "method" setting when that is a string. */
  datatype InboundConfig = InboundConfig(tag: string, protocol: Protocol, cipher: Option<string>, exclude: bool) {
    predicate Is2022() { cipher.Some? && "2022-blake3" <= cipher.value }
  }

  datatype Account =
    | VmessAccount(email: string, id: string)
    | VlessAccount(email: string, id: string, flow: string)
    | TrojanAccount(email: string, password: string)
    | ShadowsocksTcpAccount(email: string, password: string, cipher: string)
    | ShadowsocksAccount(email: string, password: string)
    | HysteriaAccount(email: string, auth: string)

  // ---- the Shadowsocks-2022 key normaliser --------------------------------

  /** strings.Contains */
  predicate Contains(s: string, part: string) {
    part <= s || (s != [] && Contains(s[1..], part))
  }

  predicate Wants16(cipher: string) { Contains(cipher, "aes-128-gcm") }

  predicate Wants32(cipher: string) { Contains(cipher, "aes-256-gcm") || Contains(cipher, "chacha20-poly1305") }

  /** The methods the length check knows. */
  predicate Recognised(cipher: string) { Wants16(cipher) || Wants32(cipher) }

  /** The text decodes to a key of the method's length. */
  predicate RightLength(c: Codec, password: string, cipher: string) {
    var decoded := c.decode64(password);
    decoded.Some? && ((Wants16(cipher) && |decoded.value| == 16) || (Wants32(cipher) && |decoded.value| == 32))
  }

  /** EnsureBase64Password: a text of the right length is kept, any other is hashed and cut. */
  function EnsureBase64Password(c: Codec, password: string, cipher: string): string {
    if RightLength(c, password, cipher) then password
    else
      var hash := c.sha256(password);
      c.encode64(if Wants16(cipher) then hash[..Min(16, |hash|)] else hash[..Min(32, |hash|)])
  }

  function Min(a: nat, b: nat): nat { if a < b then a else b }

  /**
   * Normalising twice is normalising once exactly when the method is recognised or the hash happens to reproduce
   * itself.
   */
  lemma NormaliserIdempotent(c: Codec, password: string, cipher: string)
    requires c.Lawful()
    ensures var once := EnsureBase64Password(c, password, cipher);
            && (Recognised(cipher) ==> RightLength(c, once, cipher) && EnsureBase64Password(c, once, cipher) == once)
            && (!Recognised(cipher) ==> EnsureBase64Password(c, once, cipher) == c.encode64(c.sha256(once)))
  {
    var hash := c.sha256(password);
    assert |hash| == 32 && hash[..32] == hash;
    var once := EnsureBase64Password(c, password, cipher);
    if !RightLength(c, password, cipher) && Recognised(cipher) {
      var key := if Wants16(cipher) then hash[..16] else hash;
      assert once == c.encode64(key);
      assert c.decode64(once) == Some(key);
    }
    assert |c.sha256(once)| == 32 && c.sha256(once)[..32] == c.sha256(once);
  }

  ghost predicate OccursAt(s: string, part: string, i: int) {
    0 <= i <= |s| && part <= s[i..]
  }

  lemma OccursLater(s: string, part: string, i: int)
    requires s != [] && i != 0
    ensures OccursAt(s, part, i) <==> OccursAt(s[1..], part, i - 1)
  {
    if 0 < i <= |s| {
      assert s[i..] == s[1..][i - 1..];
    }
  }

  /** What strings.Contains means. */
  lemma {:induction false} ContainsExactly(s: string, part: string)
    ensures Contains(s, part) <==> exists i :: OccursAt(s, part, i)
  {
    if part <= s {
      assert s[0..] == s && OccursAt(s, part, 0);
    } else {
      if s != [] {
        ContainsExactly(s[1..], part);
      }
      if Contains(s, part) {
        var i :| OccursAt(s[1..], part, i);
        OccursLater(s, part, i + 1);
        assert OccursAt(s, part, i + 1);
      }
      if i :| OccursAt(s, part, i) {
        assert s[0..] == s;
        OccursLater(s, part, i);
      }
    }
  }

  /** The password decodes to a key of a length the method asks for. */
  ghost predicate IsKey(c: Codec, password: string, cipher: string) {
    exists key :: c.decode64(password) == Some(key) &&
      ((Contains(cipher, "aes-128-gcm") && |key| == 16) ||
       ((Contains(cipher, "aes-256-gcm") || Contains(cipher, "chacha20-poly1305")) && |key| == 32))
  }

  /** The part of a password's hash that becomes its key: 16 bytes for a 128-bit method, all 32 otherwise. */
  ghost function HashKey(c: Codec, password: string, cipher: string): seq<nat>
    requires c.Lawful()
  {
    if Contains(cipher, "aes-128-gcm") then c.sha256(password)[..16] else c.sha256(password)
  }

  /** A password that is a key of the method's length is kept; any other becomes the key its own hash gives. */
  lemma NormaliserExactly(c: Codec, password: string, cipher: string)
    requires c.Lawful()
    ensures var once := EnsureBase64Password(c, password, cipher);
            && (IsKey(c, password, cipher) ==> once == password)
            && (!IsKey(c, password, cipher) ==> c.decode64(once) == Some(HashKey(c, password, cipher)))
  {
    var hash := c.sha256(password);
    assert |hash| == 32 && hash[..32] == hash;
  }

  // ---- accounts -----------------------------------------------------------

  const CIPHERS: set<string> := {
    "aes-128-gcm", "aes-256-gcm", "chacha20-poly1305", "chacha20-ietf-poly1305",
    "xchacha20-poly1305", "xchacha20-ietf-poly1305", "none"}

  function ProxyOf(u: User): Proxy {
    if u.proxies.Some? then u.proxies.value else Proxy(None, None, None, None, None, None)
  }

  function NewVmess(c: Codec, u: User): Option<Account> {
    match ProxyOf(u).vmess
    case None => None
    case Some(id) => if c.parseUuid(id).Some? then Some(VmessAccount(u.email, c.parseUuid(id).value)) else None
  }

  function NewVless(c: Codec, u: User): Option<Account> {
    match ProxyOf(u).vless
    case None => None
    case Some(v) =>
      if c.parseUuid(v.id).Some? then Some(VlessAccount(u.email, c.parseUuid(v.id).value, v.flow)) else None
  }

  function NewTrojan(u: User): Option<Account> {
    match ProxyOf(u).trojan case None => None case Some(password) => Some(TrojanAccount(u.email, password))
  }

  /** An unknown method reads as "none". */
  function NewShadowsocksTcp(u: User): Option<Account> {
    match ProxyOf(u).shadowsocks
    case None => None
    case Some(s) => Some(ShadowsocksTcpAccount(u.email, s.password, if s.cipher in CIPHERS then s.cipher else "none"))
  }

  function NewShadowsocks(u: User): Option<Account> {
    match ProxyOf(u).shadowsocks case None => None case Some(s) => Some(ShadowsocksAccount(u.email, s.password))
  }

  function NewHysteria(u: User): Option<Account> {
    match ProxyOf(u).hysteria case None => None case Some(auth) => Some(HysteriaAccount(u.email, auth))
  }

  /** checkShadowsocks2022 */
  function Check2022(c: Codec, cipher: string, a: Account): Account
    requires a.ShadowsocksAccount?
  {
    a.(password := EnsureBase64Password(c, a.password, cipher))
  }

  /** setupUserAccount and isActiveInbound: the account a user gets at an inbound it is assigned to. */
  function ActiveAccount(c: Codec, ib: InboundConfig, u: User): Option<Account> {
    if ib.tag !in u.inbounds then None
    else match ib.protocol
      case VlessProtocol => NewVless(c, u)
      case VmessProtocol => NewVmess(c, u)
      case TrojanProtocol => NewTrojan(u)
      case ShadowsocksProtocol =>
        if ib.Is2022() then
          (if NewShadowsocks(u).Some? then Some(Check2022(c, ib.cipher.value, NewShadowsocks(u).value)) else None)
        else NewShadowsocksTcp(u)
      case HysteriaProtocol => NewHysteria(u)
      case OtherProtocol => None
  }

  /** The form in which an account is kept: a 2022 account is normalised again. */
  function Filed(c: Codec, ib: InboundConfig, a: Account): Account {
    if a.ShadowsocksAccount? && ib.cipher.Some? then Check2022(c, ib.cipher.value, a) else a
  }

  /** The account SyncUser and UpdateUsers keep for a user. */
  function Served(c: Codec, ib: InboundConfig, u: User): (r: Option<Account>)
    ensures r.Some? ==> r.value.email == u.email && ib.tag in u.inbounds
  {
    var a := ActiveAccount(c, ib, u);
    if a.Some? then Some(Filed(c, ib, a.value)) else None
  }

  /** The account a full syncUsers keeps: a 2022 account is normalised once. */
  function FullyServed(c: Codec, ib: InboundConfig, u: User): (r: Option<Account>)
    ensures r.Some? ==> r.value.email == u.email
  {
    var made :=
      match ib.protocol
      case VmessProtocol => NewVmess(c, u)
      case VlessProtocol => NewVless(c, u)
      case TrojanProtocol => NewTrojan(u)
      case ShadowsocksProtocol =>
        if !ib.Is2022() then NewShadowsocksTcp(u)
        else if NewShadowsocks(u).Some? then Some(Check2022(c, ib.cipher.value, NewShadowsocks(u).value))
        else None
      case HysteriaProtocol => NewHysteria(u)
      case OtherProtocol => None;
    if ib.tag in u.inbounds then made else None
  }

  /** The kind of account an inbound's serialised client list holds. */
  predicate Fits(ib: InboundConfig, a: Account) {
    match ib.protocol
    case VmessProtocol => a.VmessAccount?
    case VlessProtocol => a.VlessAccount?
    case TrojanProtocol => a.TrojanAccount?
    case ShadowsocksProtocol => if ib.Is2022() then a.ShadowsocksAccount? else a.ShadowsocksTcpAccount?
    case HysteriaProtocol => a.HysteriaAccount?
    case OtherProtocol => false
  }

  /**
   * Whom an inbound serves, and with what: a user assigned to it whose proxies have the inbound's protocol, with an id
   * that parses where it is an id; a 2022 key is normalised, and a Shadowsocks method the core does not know is "none".
   */
  lemma ServedExactly(c: Codec, ib: InboundConfig, u: User)
    ensures ib.tag !in u.inbounds || u.proxies.None? || ib.protocol.OtherProtocol? ==> Served(c, ib, u) == None
    ensures ib.tag in u.inbounds && u.proxies.Some? ==>
              var p, r := u.proxies.value, Served(c, ib, u);
              match ib.protocol
              case VmessProtocol =>
                if p.vmess.Some? && c.parseUuid(p.vmess.value).Some?
                then r == Some(VmessAccount(u.email, c.parseUuid(p.vmess.value).value)) else r == None
              case VlessProtocol =>
                if p.vless.Some? && c.parseUuid(p.vless.value.id).Some?
                then r == Some(VlessAccount(u.email, c.parseUuid(p.vless.value.id).value, p.vless.value.flow))
                else r == None
              case TrojanProtocol =>
                if p.trojan.Some? then r == Some(TrojanAccount(u.email, p.trojan.value)) else r == None
              case ShadowsocksProtocol =>
                && r.Some? == p.shadowsocks.Some?
                && (r.Some? && !(ib.cipher.Some? && "2022-blake3" <= ib.cipher.value) ==>
                      var ss := p.shadowsocks.value;
                      var known := if ss.cipher in CIPHERS then ss.cipher else "none";
                      r == Some(ShadowsocksTcpAccount(u.email, ss.password, known)))
                && (r.Some? && ib.cipher.Some? && "2022-blake3" <= ib.cipher.value ==>
                      r.value.ShadowsocksAccount? && r.value.email == u.email)
              case HysteriaProtocol =>
                if p.hysteria.Some? then r == Some(HysteriaAccount(u.email, p.hysteria.value)) else r == None
              case OtherProtocol => true
  {
  }

  /** The user is assigned to the inbound and has a Shadowsocks password. */
  ghost predicate SpellsPassword(ib: InboundConfig, u: User, password: string) {
    && ib.tag in u.inbounds && u.proxies.Some? && u.proxies.value.shadowsocks.Some?
    && u.proxies.value.shadowsocks.value.password == password
  }

  /** A Shadowsocks-2022 inbound. */
  ghost predicate Serves2022(ib: InboundConfig) {
    ib.protocol.ShadowsocksProtocol? && ib.cipher.Some? && "2022-blake3" <= ib.cipher.value
  }

  /** A method whose key length the check knows. */
  ghost predicate KnownLength(cipher: string) {
    Contains(cipher, "aes-128-gcm") || Contains(cipher, "aes-256-gcm") || Contains(cipher, "chacha20-poly1305")
  }

  /**
   * At a method of known key length a key of that length is kept and any other password served as its hash's key; at
   * any other 2022 method every password is hashed twice.
   */
  lemma Served2022Exactly(c: Codec, ib: InboundConfig, u: User, password: string)
    requires c.Lawful() && Serves2022(ib) && SpellsPassword(ib, u, password)
    ensures Served(c, ib, u).Some? && Served(c, ib, u).value.ShadowsocksAccount?
    ensures var key, cipher := Served(c, ib, u).value.password, ib.cipher.value;
            if !KnownLength(cipher) then key == c.encode64(c.sha256(c.encode64(c.sha256(password))))
            else if IsKey(c, password, cipher) then key == password
            else
              var hash := HashKey(c, password, cipher);
              c.decode64(key) == Some(hash) && key == c.encode64(hash)
  {
    ServedIsNormalisedTwice(c, ib, u, password);
    NormalisedTwice(c, password, ib.cipher.value);
  }

  lemma ServedIsNormalisedTwice(c: Codec, ib: InboundConfig, u: User, password: string)
    requires Serves2022(ib) && SpellsPassword(ib, u, password)
    ensures Served(c, ib, u).Some? && Served(c, ib, u).value.ShadowsocksAccount?
    ensures var cipher := ib.cipher.value;
            Served(c, ib, u).value.password ==
            EnsureBase64Password(c, EnsureBase64Password(c, password, cipher), cipher)
  {
    assert ActiveAccount(c, ib, u) == Some(Check2022(c, ib.cipher.value, ShadowsocksAccount(u.email, password)));
  }

  lemma NormalisedTwice(c: Codec, password: string, cipher: string)
    requires c.Lawful()
    ensures var key := EnsureBase64Password(c, EnsureBase64Password(c, password, cipher), cipher);
            if !KnownLength(cipher) then key == c.encode64(c.sha256(c.encode64(c.sha256(password))))
            else if IsKey(c, password, cipher) then key == password
            else key == c.encode64(HashKey(c, password, cipher))
  {
    NormaliserIdempotent(c, password, cipher);
    var hash := c.sha256(password);
    assert |hash| == 32 && hash[..32] == hash;
  }

  /** So two passwords that are no keys are served as one exactly if the used parts of their hashes are equal. */
  lemma HashedKeysCollideExactly(c: Codec, ib: InboundConfig, u: User, v: User, x: string, y: string)
    requires c.Lawful() && Serves2022(ib) && KnownLength(ib.cipher.value)
    requires SpellsPassword(ib, u, x) && SpellsPassword(ib, v, y)
    requires !IsKey(c, x, ib.cipher.value) && !IsKey(c, y, ib.cipher.value)
    ensures Served(c, ib, u).Some? && Served(c, ib, v).Some?
    ensures Served(c, ib, u).value.ShadowsocksAccount? && Served(c, ib, v).value.ShadowsocksAccount?
    ensures Served(c, ib, u).value.password == Served(c, ib, v).value.password <==>
            HashKey(c, x, ib.cipher.value) == HashKey(c, y, ib.cipher.value)
  {
    Served2022Exactly(c, ib, u, x);
    Served2022Exactly(c, ib, v, y);
  }

  lemma ServedFits(c: Codec, ib: InboundConfig, u: User)
    ensures ActiveAccount(c, ib, u).Some? ==> Fits(ib, ActiveAccount(c, ib, u).value)
    ensures Served(c, ib, u).Some? ==> Fits(ib, Served(c, ib, u).value)
    ensures Served(c, ib, u).Some? <==> ActiveAccount(c, ib, u).Some?
  {
  }

  /**
   * Incremental and full provisioning give the same accounts at every inbound whose 2022 method is recognised; at any
   * other 2022 inbound they agree on a user exactly when hashing the normalised key gives it back.
   */
  lemma IncrementalMatchesFull(c: Codec, ib: InboundConfig, u: User)
    requires c.Lawful()
    ensures !(ib.protocol.ShadowsocksProtocol? && ib.Is2022()) || Recognised(ib.cipher.value) ==>
              Served(c, ib, u) == FullyServed(c, ib, u)
    ensures ib.protocol.ShadowsocksProtocol? && ib.Is2022() && !Recognised(ib.cipher.value) &&
            FullyServed(c, ib, u).Some? ==>
              (Served(c, ib, u) == FullyServed(c, ib, u) <==>
               c.encode64(c.sha256(FullyServed(c, ib, u).value.password)) == FullyServed(c, ib, u).value.password)
  {
    if ib.protocol.ShadowsocksProtocol? && ib.Is2022() && NewShadowsocks(u).Some? {
      NormaliserIdempotent(c, NewShadowsocks(u).value.password, ib.cipher.value);
    }
  }
}
