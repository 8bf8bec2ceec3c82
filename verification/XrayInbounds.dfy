/** The live core's client maps and the three ways users reach them (backend/xray/config.go, backend/xray/user.go). */
module XrayInbounds {
  import opened Base
  import opened Common
  import opened XrayAccounts

  type Clients = map<string, Account>

  // ---- the forms, as functions on one client map --------------------------

  /** One user: its account is in, or it is out. */
  function Synced(serve: User -> Option<Account>, clients: Clients, u: User): Clients {
    if serve(u).Some? then clients[u.email := serve(u).value] else clients - {u.email}
  }

  /** One user after another. */
  function SyncedAll(serve: User -> Option<Account>, clients: Clients, users: seq<User>): Clients {
    if users == [] then clients
    else Synced(serve, SyncedAll(serve, clients, users[..|users| - 1]), users[|users| - 1])
  }

  /** Accounts put in one after another. */
  function Added(serve: User -> Option<Account>, clients: Clients, users: seq<User>): Clients {
    if users == [] then clients
    else
      var u, before := users[|users| - 1], Added(serve, clients, users[..|users| - 1]);
      if serve(u).Some? then before[u.email := serve(u).value] else before
  }

  function Unserved(serve: User -> Option<Account>, users: seq<User>): set<string> {
    set i | 0 <= i < |users| && serve(users[i]).None? :: users[i].email
  }

  /** A batch: all accounts go in, then all unserved emails go out. */
  function Updated(serve: User -> Option<Account>, clients: Clients, users: seq<User>): Clients {
    Added(serve, clients, users) - Unserved(serve, users)
  }

  /** A full sync starts from nothing. */
  function Refilled(serve: User -> Option<Account>, users: seq<User>): Clients {
    Added(serve, map[], users)
  }

  // ---- what they hold at an email -----------------------------------------

  function At(clients: Clients, email: string): Option<Account> {
    if email in clients then Some(clients[email]) else None
  }

  /** The last user of an email. */
  function LastOf(users: seq<User>, email: string): (u: Option<User>)
    ensures u.Some? <==> exists i :: 0 <= i < |users| && users[i].email == email
    ensures u.Some? ==> u.value in users && u.value.email == email
  {
    if users == [] then None
    else if users[|users| - 1].email == email then Some(users[|users| - 1])
    else LastOf(users[..|users| - 1], email)
  }

  /** What the last user of an email decides; without one the client map does. */
  function Decided(serve: User -> Option<Account>, clients: Clients, users: seq<User>, email: string): Option<Account> {
    var u := LastOf(users, email);
    if u.Some? then serve(u.value) else At(clients, email)
  }

  lemma SameClients(a: Clients, b: Clients)
    requires forall e :: At(a, e) == At(b, e)
    ensures a == b
  {
    forall e ensures e in a <==> e in b {
      assert At(a, e) == At(b, e);
    }
    forall e | e in a ensures a[e] == b[e] {
      assert At(a, e) == At(b, e);
    }
  }

  lemma {:induction false} SyncedAllAt(serve: User -> Option<Account>, clients: Clients, users: seq<User>, e: string)
    ensures At(SyncedAll(serve, clients, users), e) == Decided(serve, clients, users, e)
  {
    if users != [] {
      SyncedAllAt(serve, clients, users[..|users| - 1], e);
    }
  }

  lemma UnservedGrow(serve: User -> Option<Account>, users: seq<User>)
    requires users != []
    ensures var init, u := users[..|users| - 1], users[|users| - 1];
            Unserved(serve, users) ==
            if serve(u).None? then Unserved(serve, init) + {u.email} else Unserved(serve, init)
  {
    var init, u := users[..|users| - 1], users[|users| - 1];
    forall e ensures e in Unserved(serve, users) <==> e in Unserved(serve, init) || (serve(u).None? && e == u.email) {
      if e in Unserved(serve, init) {
        var i :| 0 <= i < |init| && serve(init[i]).None? && init[i].email == e;
        assert users[i] == init[i];
      }
      assert serve(u).None? ==> users[|users| - 1].email in Unserved(serve, users);
    }
  }

  lemma {:induction false} AddedAt(serve: User -> Option<Account>, clients: Clients, users: seq<User>, e: string)
    ensures e !in Unserved(serve, users) ==> At(Added(serve, clients, users), e) == Decided(serve, clients, users, e)
  {
    if users != [] {
      AddedAt(serve, clients, users[..|users| - 1], e);
      UnservedGrow(serve, users);
    }
  }

  lemma UpdatedAt(serve: User -> Option<Account>, clients: Clients, users: seq<User>, e: string)
    ensures At(Updated(serve, clients, users), e) ==
            if e in Unserved(serve, users) then None else Decided(serve, clients, users, e)
  {
    AddedAt(serve, clients, users, e);
  }

  // ---- batch, fold and full sync ------------------------------------------

  /** Every email with an unserved user is unserved at its last place. */
  ghost predicate UnservedLast(serve: User -> Option<Account>, users: seq<User>) {
    forall e :: e in Unserved(serve, users) ==> LastOf(users, e).Some? && serve(LastOf(users, e).value).None?
  }

  /** No email has both a served and an unserved user. */
  ghost predicate Unmixed(serve: User -> Option<Account>, users: seq<User>) {
    forall i, j :: 0 <= i < |users| && 0 <= j < |users| && users[i].email == users[j].email ==>
      (serve(users[i]).Some? <==> serve(users[j]).Some?)
  }

  /** A batch update equals syncing its users one by one if and only if no email is unserved first and served last. */
  lemma BatchEqualsFold(serve: User -> Option<Account>, clients: Clients, users: seq<User>)
    ensures Updated(serve, clients, users) == SyncedAll(serve, clients, users) <==> UnservedLast(serve, users)
  {
    forall e
      ensures At(Updated(serve, clients, users), e) ==
              if e in Unserved(serve, users) then None else Decided(serve, clients, users, e)
      ensures At(SyncedAll(serve, clients, users), e) == Decided(serve, clients, users, e)
    {
      UpdatedAt(serve, clients, users, e);
      SyncedAllAt(serve, clients, users, e);
    }
    if UnservedLast(serve, users) {
      SameClients(Updated(serve, clients, users), SyncedAll(serve, clients, users));
    }
    if Updated(serve, clients, users) == SyncedAll(serve, clients, users) {
      forall e | e in Unserved(serve, users) ensures LastOf(users, e).Some? && serve(LastOf(users, e).value).None? {
        assert At(SyncedAll(serve, clients, users), e) == None;
      }
    }
  }

  lemma {:induction false} AddedServed(serve: User -> Option<Account>, clients: Clients, users: seq<User>, i: nat)
    requires i < |users| && serve(users[i]).Some?
    ensures users[i].email in Added(serve, clients, users)
  {
    if i < |users| - 1 {
      AddedServed(serve, clients, users[..|users| - 1], i);
    }
  }

  lemma {:induction false} AddedOnlyServed(serve: User -> Option<Account>, users: seq<User>, e: string)
    requires e in Added(serve, map[], users)
    ensures exists i :: 0 <= i < |users| && users[i].email == e && serve(users[i]).Some?
  {
    var init, u := users[..|users| - 1], users[|users| - 1];
    if e in Added(serve, map[], init) {
      AddedOnlyServed(serve, init, e);
      var i :| 0 <= i < |init| && init[i].email == e && serve(init[i]).Some?;
      assert users[i] == init[i];
    } else {
      assert users[|users| - 1].email == e && serve(u).Some?;
    }
  }

  /** From an empty map, a batch update equals a full sync if and only if no email has both kinds of users. */
  lemma BatchEqualsFull(serve: User -> Option<Account>, users: seq<User>)
    ensures Updated(serve, map[], users) == Refilled(serve, users) <==> Unmixed(serve, users)
  {
    var added, out := Added(serve, map[], users), Unserved(serve, users);
    assert added - out == added <==> forall e :: e in added ==> e !in out;
    if Unmixed(serve, users) {
      forall e | e in added ensures e !in out {
        AddedOnlyServed(serve, users, e);
      }
    }
    if forall e :: e in added ==> e !in out {
      forall i, j | 0 <= i < |users| && 0 <= j < |users| && users[i].email == users[j].email && serve(users[i]).Some?
        ensures serve(users[j]).Some?
      {
        AddedServed(serve, map[], users, i);
        assert users[i].email !in out;
      }
    }
  }

  /** Distinct emails meet both conditions. */
  lemma DistinctEmailsAgree(serve: User -> Option<Account>, users: seq<User>)
    requires DistinctEmails(users)
    ensures UnservedLast(serve, users) && Unmixed(serve, users)
  {
    forall e | e in Unserved(serve, users) ensures LastOf(users, e).Some? && serve(LastOf(users, e).value).None? {
      var i :| 0 <= i < |users| && serve(users[i]).None? && users[i].email == e;
      var j :| 0 <= j < |users| && users[j] == LastOf(users, e).value;
    }
  }

  /** A user dropped and re-added within one batch is kept by the fold and lost by the batch. */
  lemma RepeatedEmailDiffers(serve: User -> Option<Account>, clients: Clients, out: User, back: User)
    requires out.email == back.email && serve(out).None? && serve(back).Some?
    ensures back.email in SyncedAll(serve, clients, [out, back])
    ensures back.email !in Updated(serve, clients, [out, back])
  {
    var users := [out, back];
    assert users[0] == out && users[..1] == [out];
    assert out.email in Unserved(serve, users);
  }
}
