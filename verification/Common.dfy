/**
 * The user messages a panel sends. A nil message reads as empty everywhere, so a nil user is the user with no email.
 */
module Common {
  import opened Base
  import opened Networks

  /** What net.ParseCIDR makes of one address text. */
  datatype Cidr = BadCidr(text: string) | Cidr(net: IPNet)

  datatype Wireguard = Wireguard(publicKey: string, peerIps: seq<Cidr>)

  datatype Vless = Vless(id: string, flow: string)

  datatype Shadowsocks = Shadowsocks(password: string, cipher: string)

  datatype Proxy = Proxy(
    vmess: Option<string>,
    vless: Option<Vless>,
    trojan: Option<string>,
    shadowsocks: Option<Shadowsocks>,
    wireguard: Option<Wireguard>,
    hysteria: Option<string>)

  datatype User = User(email: string, proxies: Option<Proxy>, inbounds: seq<string>)

  ghost predicate DistinctEmails(users: seq<User>) {
    forall i, j :: 0 <= i < j < |users| ==> users[i].email != users[j].email
  }

  /** user.GetProxies().GetWireguard(), an absent part reading as the empty message. */
  function WireguardOf(u: User): Wireguard {
    if u.proxies.Some? && u.proxies.value.wireguard.Some? then u.proxies.value.wireguard.value
    else Wireguard("", [])
  }
}
