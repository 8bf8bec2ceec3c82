/** The inbound and configuration objects whose client maps the code updates in place. */
module XrayConfig {
  import opened Base
  import opened Common
  import opened XrayAccounts
  import opened XrayInbounds

  /** Every client is filed under its own email and is of the kind its inbound serialises. */
  ghost predicate Typed(config: InboundConfig, clients: Clients) {
    forall e :: e in clients ==> clients[e].email == e && Fits(config, clients[e])
  }

  /** The account functions of an inbound. */
  function Serving(c: Codec, config: InboundConfig): User -> Option<Account> {
    u => Served(c, config, u)
  }

  function FullyServing(c: Codec, config: InboundConfig): User -> Option<Account> {
    u => FullyServed(c, config, u)
  }

  /** The accounts buildInboundUpdates collects for an inbound. */
  function ActiveAccounts(c: Codec, config: InboundConfig, users: seq<User>): seq<Account> {
    if users == [] then []
    else
      var a := ActiveAccount(c, config, users[|users| - 1]);
      ActiveAccounts(c, config, users[..|users| - 1]) + if a.Some? then [a.value] else []
  }

  /** The account loop of Inbound.updateUsers. */
  function PutAll(c: Codec, config: InboundConfig, clients: Clients, accounts: seq<Account>): Clients {
    if accounts == [] then clients
    else
      var a, before := accounts[|accounts| - 1], PutAll(c, config, clients, accounts[..|accounts| - 1]);
      if Fits(config, a) then before[a.email := Filed(c, config, a)] else before
  }

  lemma PutOneMore(c: Codec, config: InboundConfig, clients: Clients, accounts: seq<Account>, a: Account)
    ensures PutAll(c, config, clients, accounts + [a]) ==
            var before := PutAll(c, config, clients, accounts);
            if Fits(config, a) then before[a.email := Filed(c, config, a)] else before
  {
  }

  /** No collected account is skipped: the loop adds exactly the served users. */
  lemma {:induction false} PutAllAdds(c: Codec, config: InboundConfig, clients: Clients, users: seq<User>)
    ensures PutAll(c, config, clients, ActiveAccounts(c, config, users)) == Added(Serving(c, config), clients, users)
  {
    if users != [] {
      var init, u := users[..|users| - 1], users[|users| - 1];
      PutAllAdds(c, config, clients, init);
      ServedFits(c, config, u);
      assert Serving(c, config)(u) == Served(c, config, u);
      if ActiveAccount(c, config, u).Some? {
        PutOneMore(c, config, clients, ActiveAccounts(c, config, init), ActiveAccount(c, config, u).value);
      } else {
        assert ActiveAccounts(c, config, users) == ActiveAccounts(c, config, init);
      }
    }
  }

  class Inbound {
    const config: InboundConfig
    var clients: Clients

    constructor (config: InboundConfig)
      ensures this.config == config && clients == map[]
    {
      this.config := config;
      clients := map[];
    }

    /** Inbound.syncUsers */
    method SyncUsers(c: Codec, users: seq<User>)
      modifies this`clients
      ensures clients == Refilled(FullyServing(c, config), users)
    {
      clients := map[];
      for i := 0 to |users|
        invariant clients == Added(FullyServing(c, config), map[], users[..i])
      {
        assert users[..i + 1][..i] == users[..i];
        var account := FullyServed(c, config, users[i]);
        if account.Some? {
          clients := clients[users[i].email := account.value];
        }
      }
      assert users[..|users|] == users;
    }

    /** Inbound.updateUser */
    method UpdateUser(c: Codec, account: Account)
      modifies this`clients
      ensures clients == old(clients)[account.email := Filed(c, config, account)]
    {
      if account.ShadowsocksAccount? && config.cipher.Some? {
        clients := clients[account.email := Check2022(c, config.cipher.value, account)];
      } else {
        clients := clients[account.email := account];
      }
    }

    /** Inbound.updateUsers: accounts of another kind are skipped, removals come last. */
    method UpdateUsers(c: Codec, accounts: seq<Account>, removeEmails: seq<string>)
      modifies this`clients
      ensures clients == PutAll(c, config, old(clients), accounts) - Elements(removeEmails)
    {
      for i := 0 to |accounts|
        invariant clients == PutAll(c, config, old(clients), accounts[..i])
      {
        assert accounts[..i + 1] == accounts[..i] + [accounts[i]];
        PutOneMore(c, config, old(clients), accounts[..i], accounts[i]);
        if Fits(config, accounts[i]) {
          UpdateUser(c, accounts[i]);
        }
      }
      assert accounts[..|accounts|] == accounts;
      ghost var added := clients;
      for i := 0 to |removeEmails|
        invariant clients == added - Elements(removeEmails[..i])
      {
        assert Elements(removeEmails[..i + 1]) == Elements(removeEmails[..i]) + {removeEmails[i]};
        clients := clients - {removeEmails[i]};
      }
      assert removeEmails[..|removeEmails|] == removeEmails;
    }

    /** Inbound.removeUser */
    method RemoveUser(email: string)
      modifies this`clients
      ensures clients == old(clients) - {email}
    {
      clients := clients - {email};
    }

    /** The client list ToBytes serialises: the clients of the inbound's kind, and with typed clients all, each once. */
    method ClientList() returns (list: seq<Account>)
      ensures forall a :: a in list <==> Fits(config, a) && exists e :: e in clients && clients[e] == a
      ensures Typed(config, clients) ==>
                NoDuplicates(list) && forall a :: a in list <==> a.email in clients && clients[a.email] == a
    {
      var emails := Enumerate(clients.Keys);
      list := [];
      for i := 0 to |emails|
        invariant forall a :: a in list <==>
                    Fits(config, a) && exists e :: e in Elements(emails[..i]) && e in clients && clients[e] == a
        invariant Typed(config, clients) ==> NoDuplicates(list)
      {
        Visited(emails, i);
        ListGrows(config, clients, emails, i, list);
        var account := clients[emails[i]];
        if Fits(config, account) {
          list := list + [account];
        }
      }
      assert emails[..|emails|] == emails;
    }
  }

  lemma ListGrows(config: InboundConfig, clients: Clients, emails: seq<string>, i: nat, list: seq<Account>)
    requires i < |emails| && emails[i] in clients && Elements(emails[..i + 1]) == Elements(emails[..i]) + {emails[i]}
    requires emails[i] !in Elements(emails[..i])
    requires forall a :: a in list <==>
               Fits(config, a) && exists e :: e in Elements(emails[..i]) && e in clients && clients[e] == a
    ensures var list' := if Fits(config, clients[emails[i]]) then list + [clients[emails[i]]] else list;
            forall a :: a in list' <==>
              Fits(config, a) && exists e :: e in Elements(emails[..i + 1]) && e in clients && clients[e] == a
    ensures Typed(config, clients) ==> clients[emails[i]] !in list
  {
  }

  /** What the incremental operations do to one inbound. */
  ghost predicate SyncedOne(c: Codec, config: InboundConfig, before: Clients, users: seq<User>, after: Clients) {
    after == if config.exclude then before else Updated(Serving(c, config), before, users)
  }

  class Config {
    const codec: Codec
    const inbounds: seq<Inbound>

    constructor (codec: Codec, inbounds: seq<Inbound>)
      ensures this.codec == codec && this.inbounds == inbounds
    {
      this.codec, this.inbounds := codec, inbounds;
    }

    /** Distinct inbound objects, which is what distinct tags give. */
    ghost predicate Valid() {
      NoDuplicates(inbounds)
    }

    /** Xray.SyncUser, as far as the client maps go. */
    method SyncUser(user: User)
      requires Valid()
      modifies set i | 0 <= i < |inbounds| :: inbounds[i]
      ensures forall i :: 0 <= i < |inbounds| ==>
                inbounds[i].clients == if inbounds[i].config.exclude then old(inbounds[i].clients)
                                       else Synced(Serving(codec, inbounds[i].config), old(inbounds[i].clients), user)
    {
      for i := 0 to |inbounds|
        invariant forall j :: 0 <= j < i ==>
                    inbounds[j].clients ==
                    if inbounds[j].config.exclude then old(inbounds[j].clients)
                    else Synced(Serving(codec, inbounds[j].config), old(inbounds[j].clients), user)
        invariant forall j :: i <= j < |inbounds| ==> inbounds[j].clients == old(inbounds[j].clients)
      {
        var inbound := inbounds[i];
        if inbound.config.exclude {
          continue;
        }
        assert Serving(codec, inbound.config)(user) == Served(codec, inbound.config, user);
        var account := ActiveAccount(codec, inbound.config, user);
        if account.Some? {
          inbound.UpdateUser(codec, account.value);
        } else {
          inbound.RemoveUser(user.email);
        }
      }
    }

    /** The part of buildInboundUpdates for one inbound: accounts of the active users, emails of the others. */
    method InboundUpdate(config: InboundConfig, users: seq<User>) returns (accounts: seq<Account>,
                         removeEmails: set<string>)
      ensures accounts == ActiveAccounts(codec, config, users)
      ensures removeEmails == Unserved(Serving(codec, config), users)
    {
      accounts, removeEmails := [], {};
      for i := 0 to |users|
        invariant accounts == ActiveAccounts(codec, config, users[..i])
        invariant removeEmails == Unserved(Serving(codec, config), users[..i])
      {
        assert users[..i + 1][..i] == users[..i];
        UnservedGrows(Serving(codec, config), users, i);
        assert Serving(codec, config)(users[i]) == Served(codec, config, users[i]);
        var account := ActiveAccount(codec, config, users[i]);
        if account.Some? {
          accounts := accounts + [account.value];
        } else {
          removeEmails := removeEmails + {users[i].email};
        }
      }
      assert users[..|users|] == users;
    }

    /** Config.updateUsers and Xray.UpdateUsers, as far as the client maps go. */
    method UpdateUsers(users: seq<User>)
      requires Valid()
      modifies set i | 0 <= i < |inbounds| :: inbounds[i]
      ensures forall i :: 0 <= i < |inbounds| ==>
                SyncedOne(codec, inbounds[i].config, old(inbounds[i].clients), users, inbounds[i].clients)
    {
      for i := 0 to |inbounds|
        invariant forall j :: 0 <= j < i ==>
                    SyncedOne(codec, inbounds[j].config, old(inbounds[j].clients), users, inbounds[j].clients)
        invariant forall j :: i <= j < |inbounds| ==> inbounds[j].clients == old(inbounds[j].clients)
      {
        var inbound := inbounds[i];
        if inbound.config.exclude {
          continue;
        }
        var accounts, removeSet := InboundUpdate(inbound.config, users);
        var removeEmails := Enumerate(removeSet);
        PutAllAdds(codec, inbound.config, inbound.clients, users);
        inbound.UpdateUsers(codec, accounts, removeEmails);
      }
    }

    /** Config.syncUsers */
    method SyncUsers(users: seq<User>)
      requires Valid()
      modifies set i | 0 <= i < |inbounds| :: inbounds[i]
      ensures forall i :: 0 <= i < |inbounds| ==>
                inbounds[i].clients == if inbounds[i].config.exclude then old(inbounds[i].clients)
                                       else Refilled(FullyServing(codec, inbounds[i].config), users)
    {
      for i := 0 to |inbounds|
        invariant forall j :: 0 <= j < i ==>
                    inbounds[j].clients == if inbounds[j].config.exclude then old(inbounds[j].clients)
                                           else Refilled(FullyServing(codec, inbounds[j].config), users)
        invariant forall j :: i <= j < |inbounds| ==> inbounds[j].clients == old(inbounds[j].clients)
      {
        if !inbounds[i].config.exclude {
          inbounds[i].SyncUsers(codec, users);
        }
      }
    }
  }

  lemma UnservedGrows(serve: User -> Option<Account>, users: seq<User>, i: nat)
    requires i < |users|
    ensures Unserved(serve, users[..i + 1]) ==
            if serve(users[i]).None? then Unserved(serve, users[..i]) + {users[i].email}
            else Unserved(serve, users[..i])
  {
  }

  // ---- typed clients ------------------------------------------------------

  lemma {:induction false} AddedStaysTyped(config: InboundConfig, serve: User -> Option<Account>, clients: Clients,
                                           users: seq<User>)
    requires Typed(config, clients)
    requires forall u :: serve(u).Some? ==> serve(u).value.email == u.email && Fits(config, serve(u).value)
    ensures Typed(config, Added(serve, clients, users))
  {
    if users != [] {
      AddedStaysTyped(config, serve, clients, users[..|users| - 1]);
    }
  }

  /** Every form of provisioning keeps the clients typed, so serialising never drops one. */
  lemma ProvisioningStaysTyped(c: Codec, config: InboundConfig, clients: Clients, users: seq<User>)
    requires Typed(config, clients)
    ensures Typed(config, Updated(Serving(c, config), clients, users))
    ensures Typed(config, Refilled(FullyServing(c, config), users))
  {
    forall u
      ensures Serving(c, config)(u).Some? ==>
                Serving(c, config)(u).value.email == u.email && Fits(config, Serving(c, config)(u).value)
    {
      ServedFits(c, config, u);
    }
    forall u ensures FullyServing(c, config)(u).Some? ==>
        FullyServing(c, config)(u).value.email == u.email && Fits(config, FullyServing(c, config)(u).value) {
      ServedFits(c, config, u);
    }
    AddedStaysTyped(config, Serving(c, config), clients, users);
    AddedStaysTyped(config, FullyServing(c, config), map[], users);
  }

  /**
   * The three forms at an inbound: a batch equals the fold of single syncs exactly if no email is unserved first and
   * served last; if the inbound's 2022 method, should it have one, is recognised, then from an empty map it equals a
   * full sync exactly if no email has both kinds of users.
   */
  lemma ThreeFormsAgree(c: Codec, config: InboundConfig, clients: Clients, users: seq<User>)
    requires c.Lawful()
    ensures Updated(Serving(c, config), clients, users) == SyncedAll(Serving(c, config), clients, users) <==>
            UnservedLast(Serving(c, config), users)
    ensures !(config.protocol.ShadowsocksProtocol? && config.Is2022()) || Recognised(config.cipher.value) ==>
              (Updated(Serving(c, config), map[], users) == Refilled(FullyServing(c, config), users) <==>
               Unmixed(Serving(c, config), users))
    ensures DistinctEmails(users) ==> UnservedLast(Serving(c, config), users) && Unmixed(Serving(c, config), users)
  {
    BatchEqualsFold(Serving(c, config), clients, users);
    BatchEqualsFull(Serving(c, config), users);
    if DistinctEmails(users) {
      DistinctEmailsAgree(Serving(c, config), users);
    }
    if !(config.protocol.ShadowsocksProtocol? && config.Is2022()) || Recognised(config.cipher.value) {
      forall u ensures Serving(c, config)(u) == FullyServing(c, config)(u) {
        IncrementalMatchesFull(c, config, u);
      }
      SameServiceSameFill(Serving(c, config), FullyServing(c, config), users);
    }
  }

  lemma {:induction false} SameServiceSameFill(f: User -> Option<Account>, g: User -> Option<Account>, users: seq<User>)
    requires forall u :: f(u) == g(u)
    ensures Refilled(f, users) == Refilled(g, users)
  {
    if users != [] {
      SameServiceSameFill(f, g, users[..|users| - 1]);
    }
  }
}
