/** The per-user statistics a tenant sees (GetTenantUserStats in shared/manager.go). */
module TenantStats {
  import opened Base
  import opened SharedState
  import opened Usage

  /** The tenant's rows, in order, under the names its own panel uses. */
  function TenantRows(rows: seq<Row>, id: string): seq<Row> {
    if rows == [] then []
    else
      var last, before := rows[|rows| - 1], TenantRows(rows[..|rows| - 1], id);
      if Prefix(id) <= last.name then before + [last.(name := last.name[|Prefix(id)|..])] else before
  }

  lemma NamesAreInjective(id: string, name: string, email: string)
    ensures name == NamespacedEmail(id, email) <==> Prefix(id) <= name && name[|Prefix(id)|..] == email
  {
  }

  /**
   * A user's total in the tenant's own view is the core's total for the namespaced user: nothing lost, added or mixed.
   */
  lemma {:induction false} TenantTotals(rows: seq<Row>, id: string, email: string)
    ensures Lookup(Totals(TenantRows(rows, id)), email) == Lookup(Totals(rows), NamespacedEmail(id, email))
  {
    if rows != [] {
      var last, init := rows[|rows| - 1], rows[..|rows| - 1];
      TenantTotals(init, id, email);
      NamesAreInjective(id, last.name, email);
      if Prefix(id) <= last.name {
        var row := last.(name := last.name[|Prefix(id)|..]);
        assert (TenantRows(init, id) + [row])[..|TenantRows(init, id)|] == TenantRows(init, id);
        assert TenantRows(rows, id) == TenantRows(init, id) + [row];
      }
    }
  }

  /** The core's row behind a shown one. */
  function Behind(id: string, row: Row): Row {
    row.(name := NamespacedEmail(id, row.name))
  }

  /** Every shown row is one of the core's under the tenant's name for it, and never another tenant's user. */
  lemma OthersRowsHidden(rows: seq<Row>, id: string, s: State, k: nat)
    requires Named(s) && Inverse(s) && id in s.reg.byID && k < |TenantRows(rows, id)|
    ensures Behind(id, TenantRows(rows, id)[k]) in rows
    ensures var name := NamespacedEmail(id, TenantRows(rows, id)[k].name); name in s.emailTo ==> s.emailTo[name] == id
  {
    var name := NamespacedEmail(id, TenantRows(rows, id)[k].name);
    ShownRowExists(rows, id, k);
    if name in s.emailTo {
      assert Lookup(s.emailTo, name) == Some(s.emailTo[name]);
      PrefixIsOneTenants(id, s.emailTo[name], name);
    }
  }

  lemma {:induction false} ShownRowExists(rows: seq<Row>, id: string, k: nat)
    requires k < |TenantRows(rows, id)|
    ensures Behind(id, TenantRows(rows, id)[k]) in rows
  {
    var last, init := rows[|rows| - 1], rows[..|rows| - 1];
    if k < |TenantRows(init, id)| {
      ShownRowExists(init, id, k);
    } else {
      NamesAreInjective(id, last.name, TenantRows(rows, id)[k].name);
    }
  }
}
