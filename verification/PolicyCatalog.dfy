/** The policy catalog that `20260203_add_rls_policies.py` changes, table by table. */
module PolicyCatalog {
  import opened Prelude
  import opened RowSecurity

  const TENANT_SCOPED_TABLES: seq<string> :=
    ["stores", "products", "orders", "customers", "categories", "invoices", "customer_addresses", "coupons"]

  predicate Distinct(names: seq<string>) {
    forall i, j :: 0 <= i < j < |names| ==> names[i] != names[j]
  }

  /** The eight tables with tenant data, each listed once. */
  lemma ScopedTablesDistinct()
    ensures Distinct(TENANT_SCOPED_TABLES)
    ensures forall n :: n in TENANT_SCOPED_TABLES <==>
              n in {"stores", "products", "orders", "customers", "categories", "invoices", "customer_addresses",
                    "coupons"}
  {
    var t := TENANT_SCOPED_TABLES;
    assert |t[0]| == 6 && |t[1]| == 8 && |t[2]| == 6 && |t[3]| == 9;
    assert |t[4]| == 10 && |t[5]| == 8 && |t[6]| == 18 && |t[7]| == 7;
    assert t[0][0] == 's' && t[2][0] == 'o' && t[1][0] == 'p' && t[5][0] == 'i';
  }

  predicate HasPolicy(s: Security, name: string) {
    exists p :: p in s.policies && p.name == name
  }

  predicate ClashesWith(s: Security, added: seq<Policy>) {
    exists p :: p in added && HasPolicy(s, p.name)
  }

  function WithIsolation(s: Security): Security {
    Security(true, true, s.policies + ISOLATION)
  }

  function WithBypass(s: Security): Security {
    s.(policies := s.policies + [ADMIN_BYPASS])
  }

  function Without(s: Security, removed: seq<Policy>): Security {
    s.(policies := Filter((p: Policy) => !exists q :: q in removed && q.name == p.name, s.policies))
  }

  /** `DISABLE ROW LEVEL SECURITY` leaves the force flag alone. */
  function Downgraded(s: Security): Security {
    Without(s, BUNDLE).(enabled := false)
  }

  class Catalog {
    var tables: map<string, Security>

    constructor (tables: map<string, Security>)
      ensures this.tables == tables
    {
      this.tables := tables;
    }

    /** Creates the policies of `ISOLATION` on one table, or reports that a name is taken. */
    method CreateIsolation(name: string) returns (ok: bool)
      requires name in tables
      modifies this`tables
      ensures ok == !ClashesWith(old(tables)[name], ISOLATION)
      ensures ok ==> tables == old(tables)[name := WithIsolation(old(tables)[name])]
      ensures !ok ==> tables == old(tables)
    {
      if ClashesWith(tables[name], ISOLATION) {
        return false;
      }
      tables := tables[name := WithIsolation(tables[name])];
      return true;
    }

    /** First pass: row security and the four isolation policies on every listed table that exists. */
    method IsolateAll(scoped: seq<string>) returns (ok: bool)
      requires Distinct(scoped)
      modifies this`tables
      ensures ok == forall n :: n in scoped && n in old(tables) ==> !ClashesWith(old(tables)[n], ISOLATION)
      ensures ok ==> tables == map n | n in old(tables) ::
                         if n in scoped then WithIsolation(old(tables)[n]) else old(tables)[n]
    {
      ghost var start := tables;
      for i := 0 to |scoped|
        invariant tables == map n | n in start :: if n in scoped[..i] then WithIsolation(start[n]) else start[n]
        invariant forall n :: n in scoped[..i] && n in start ==> !ClashesWith(start[n], ISOLATION)
      {
        assert scoped[i] !in scoped[..i];
        assert scoped[..i + 1] == scoped[..i] + [scoped[i]];
        if scoped[i] in tables {
          var created := CreateIsolation(scoped[i]);
          if !created {
            return false;
          }
        }
      }
      assert scoped[..|scoped|] == scoped;
      return true;
    }

    /** Second pass: `admin_bypass` on every listed table that exists. */
    method BypassAll(scoped: seq<string>) returns (ok: bool)
      requires Distinct(scoped)
      modifies this`tables
      ensures ok == forall n :: n in scoped && n in old(tables) ==> !HasPolicy(old(tables)[n], ADMIN_BYPASS.name)
      ensures ok ==> tables == map n | n in old(tables) ::
                         if n in scoped then WithBypass(old(tables)[n]) else old(tables)[n]
    {
      ghost var start := tables;
      for i := 0 to |scoped|
        invariant tables == map n | n in start :: if n in scoped[..i] then WithBypass(start[n]) else start[n]
        invariant forall n :: n in scoped[..i] && n in start ==> !HasPolicy(start[n], ADMIN_BYPASS.name)
      {
        assert scoped[i] !in scoped[..i];
        assert scoped[..i + 1] == scoped[..i] + [scoped[i]];
        if scoped[i] in tables {
          if HasPolicy(tables[scoped[i]], ADMIN_BYPASS.name) {
            return false;
          }
          tables := tables[scoped[i] := WithBypass(tables[scoped[i]])];
        }
      }
      assert scoped[..|scoped|] == scoped;
      return true;
    }

    /** Both passes. A policy name already in use on one of the tables fails the migration, and the
        transaction leaves the catalog as it was. */
    method Upgrade() returns (ok: bool)
      modifies this`tables
      ensures ok == forall n :: n in TENANT_SCOPED_TABLES && n in old(tables) ==> !ClashesWith(old(tables)[n], BUNDLE)
      ensures !ok ==> tables == old(tables)
      ensures ok ==> tables == map n | n in old(tables) ::
                         if n in TENANT_SCOPED_TABLES then WithBypass(WithIsolation(old(tables)[n])) else old(tables)[n]
    {
      var saved := tables;
      forall n | n in saved
        ensures HasPolicy(WithIsolation(saved[n]), ADMIN_BYPASS.name) == HasPolicy(saved[n], ADMIN_BYPASS.name)
        ensures ClashesWith(saved[n], BUNDLE) <==>
                ClashesWith(saved[n], ISOLATION) || HasPolicy(saved[n], ADMIN_BYPASS.name)
      {
        BypassClash(saved[n]);
      }
      ScopedTablesDistinct();
      ok := IsolateAll(TENANT_SCOPED_TABLES);
      if ok {
        ok := BypassAll(TENANT_SCOPED_TABLES);
      }
      if !ok {
        tables := saved;
      }
    }

    method Downgrade()
      modifies this`tables
      ensures tables == map n | n in old(tables) ::
                         if n in TENANT_SCOPED_TABLES then Downgraded(old(tables)[n]) else old(tables)[n]
    {
      ghost var start := tables;
      var scoped := TENANT_SCOPED_TABLES;
      ScopedTablesDistinct();
      for i := 0 to |scoped|
        invariant tables == map n | n in start :: if n in scoped[..i] then Downgraded(start[n]) else start[n]
      {
        assert scoped[i] !in scoped[..i];
        assert scoped[..i + 1] == scoped[..i] + [scoped[i]];
        if scoped[i] in tables {
          tables := tables[scoped[i] := Downgraded(tables[scoped[i]])];
        }
      }
      assert scoped[..|scoped|] == scoped;
    }
  }

  /** `admin_bypass` is free after the isolation policies exactly when it was free before them. */
  lemma BypassClash(s: Security)
    ensures HasPolicy(WithIsolation(s), ADMIN_BYPASS.name) == HasPolicy(s, ADMIN_BYPASS.name)
    ensures ClashesWith(s, BUNDLE) <==> ClashesWith(s, ISOLATION) || HasPolicy(s, ADMIN_BYPASS.name)
  {
    assert ADMIN_BYPASS.name[0] == 'a' && forall p :: p in ISOLATION ==> p.name[0] == 't';
    assert WithIsolation(s).policies == s.policies + ISOLATION;
    forall p | p in s.policies ensures p in WithIsolation(s).policies {}
    assert ADMIN_BYPASS in BUNDLE;
    assert forall p :: p in ISOLATION ==> p in BUNDLE;
    assert forall p :: p in BUNDLE ==> p in ISOLATION || p == ADMIN_BYPASS;
  }

  /** A table that had no policies and no row security becomes a protected table, and downgrading a
      freshly upgraded table gives back its policies with row security off. The force flag stays on: the
      round trip is exact for a table if and only if it was disabled and forced to begin with. */
  lemma UpgradeDowngradeExactly(s: Security)
    requires !ClashesWith(s, BUNDLE)
    ensures s.policies == [] ==> WithBypass(WithIsolation(s)) == PROTECTED
    ensures Downgraded(WithBypass(WithIsolation(s))) == Security(false, true, s.policies)
    ensures Downgraded(WithBypass(WithIsolation(s))) == s <==> !s.enabled && s.forced
  {
    var up := WithBypass(WithIsolation(s));
    assert up.policies == s.policies + BUNDLE;
    var kept := (p: Policy) => !exists q :: q in BUNDLE && q.name == p.name;
    FilterConcat(kept, s.policies, BUNDLE);
    FilterAll(kept, s.policies);
    FilterNone(kept, BUNDLE);
    assert Without(up, BUNDLE).policies == Filter(kept, up.policies);
  }

  /** A table without row security comes back forced. */
  lemma ForceFlagStays()
    ensures var bare := Security(false, false, []);
            !ClashesWith(bare, BUNDLE) && Downgraded(WithBypass(WithIsolation(bare))) == Security(false, true, [])
  {
    UpgradeDowngradeExactly(Security(false, false, []));
  }
}
