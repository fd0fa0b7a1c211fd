/** What the theme scripts leave in the tables, row by row and without their own lookups. */
module ThemeMeaning {
  import opened Prelude
  import opened ThemeTables

  // ---- seed_themes -------------------------------------------------------------------------------

  ghost predicate HasTheme(themes: map<nat, Theme>, slug: string) {
    exists t :: t in themes && themes[t].slug == slug
  }

  /** `v` is the theme's only version, "1.0.0", and its latest. */
  ghost predicate OnlyVersion(versions: map<nat, Version>, theme: nat, v: nat) {
    && v in versions && versions[v] == Version(theme, "1.0.0", true)
    && forall u :: u in versions && versions[u].theme == theme ==> u == v
  }

  ghost predicate FreshTheme(db: Db, e: Db, slugs: seq<string>, t: nat) {
    && t in e.themes && e.themes[t].kind == Internal && e.themes[t].slug in slugs
    && !HasTheme(db.themes, e.themes[t].slug)
    && exists v :: OnlyVersion(e.versions, t, v)
  }

  /** Everything that was there is there, unchanged; what is new are themes and their versions. */
  ghost predicate OnlyThemesAdded(db: Db, e: Db) {
    && e.stores == db.stores && e.storeThemes == db.storeThemes && e.markets == db.markets && e.installs == db.installs
    && (forall t :: t in db.themes ==> t in e.themes && e.themes[t] == db.themes[t])
    && (forall v :: v in db.versions ==> v in e.versions && e.versions[v] == db.versions[v])
    && (forall v :: v in e.versions && v !in db.versions ==> e.versions[v].theme !in db.themes)
  }

  lemma OneBuiltinSeeded(db: Db, slug: string)
    requires Sound(db)
    ensures var e := SeededBuiltin(db, slug);
            && OnlyThemesAdded(db, e) && HasTheme(e.themes, slug)
            && (HasTheme(db.themes, slug) ==> e == db)
            && (forall t :: t in e.themes && t !in db.themes ==> FreshTheme(db, e, [slug], t))
  {
    var e := SeededBuiltin(db, slug);
    if HasTheme(db.themes, slug) {
      assert FindTheme(db.themes, slug).Some?;
    } else {
      assert e.themes[db.nextId].slug == slug;
      assert OnlyVersion(e.versions, db.nextId, db.nextId + 1);
      assert FreshTheme(db, e, [slug], db.nextId);
    }
  }

  lemma FreshThemeStays(db: Db, d: Db, e: Db, init: seq<string>, slugs: seq<string>, t: nat)
    requires FreshTheme(db, d, init, t) && OnlyThemesAdded(d, e) && forall s :: s in init ==> s in slugs
    ensures FreshTheme(db, e, slugs, t)
  {
    var v :| OnlyVersion(d.versions, t, v);
    assert OnlyVersion(e.versions, t, v);
  }

  /** Every slug has a theme. One that was missing is internal and has exactly one version, which is its
      latest; nothing else has changed. */
  ghost predicate SeedsBuiltins(db: Db, e: Db, slugs: seq<string>) {
    && OnlyThemesAdded(db, e)
    && (forall s :: s in slugs ==> HasTheme(e.themes, s))
    && (forall t :: t in e.themes && t !in db.themes ==> FreshTheme(db, e, slugs, t))
  }

  /** What `seed_themes` leaves, for every catalog and every list of definitions. */
  lemma {:induction false} BuiltinsAreSeeded(db: Db, slugs: seq<string>)
    requires Consistent(db)
    ensures SeedsBuiltins(db, SeededBuiltins(db, slugs), slugs)
  {
    if slugs != [] {
      var init, last := slugs[..|slugs| - 1], slugs[|slugs| - 1];
      assert slugs == init + [last];
      BuiltinsAreSeeded(db, init);
      SeedBuiltinsKeepConsistent(db, init);
      OneMoreSeeded(db, SeededBuiltins(db, init), init, last);
    }
  }

  lemma OneMoreSeeded(db: Db, d: Db, init: seq<string>, last: string)
    requires Consistent(d) && SeedsBuiltins(db, d, init)
    ensures SeedsBuiltins(db, SeededBuiltin(d, last), init + [last])
  {
    var e := SeededBuiltin(d, last);
    OneBuiltinSeeded(d, last);
    forall s | s in init ensures HasTheme(e.themes, s) {
      var t :| t in d.themes && d.themes[t].slug == s;
      assert t in e.themes && e.themes[t].slug == s;
    }
    forall t | t in e.themes && t !in db.themes ensures FreshTheme(db, e, init + [last], t) {
      if t in d.themes {
        FreshThemeStays(db, d, e, init, init + [last], t);
      } else {
        NewestTheme(db, d, e, init + [last], last, t);
      }
    }
  }

  lemma NewestTheme(db: Db, d: Db, e: Db, slugs: seq<string>, last: string, t: nat)
    requires OnlyThemesAdded(db, d) && FreshTheme(d, e, [last], t) && last in slugs
    ensures FreshTheme(db, e, slugs, t)
  {
    assert e.themes[t].slug == last;
    forall u | u in db.themes ensures db.themes[u].slug != last {
      assert u in d.themes && d.themes[u] == db.themes[u];
    }
  }

  // ---- migrate_theme_settings --------------------------------------------------------------------

  /** The store has a tenant and names the internal theme, whose latest version is `version`. */
  ghost predicate Qualifies(db: Db, store: nat, theme: nat, version: nat) {
    && store in db.stores && db.stores[store].tenant.Some?
    && db.stores[store].settings.Some? && db.stores[store].settings.value != ""
    && theme in db.themes && db.themes[theme] == Theme(db.stores[store].settings.value, Internal)
    && version in db.versions && db.versions[version].theme == theme && db.versions[version].latest
  }

  ghost predicate Rowless(rows: StoreThemes, store: nat) {
    forall r :: r in rows ==> rows[r].store != store
  }

  /** Row `r` is the store's only one: active, on the theme and version, with the store's tenant. */
  ghost predicate OnlyRow(db: Db, rows: StoreThemes, store: nat, theme: nat, version: nat, r: nat) {
    && store in db.stores && db.stores[store].tenant.Some?
    && r in rows && rows[r] == StoreTheme(db.stores[store].tenant.value, store, theme, version, true)
    && forall q :: q in rows && rows[q].store == store ==> q == r
  }

  ghost predicate Earned(db: Db, rows: StoreThemes, stores: seq<nat>, r: nat) {
    && r in rows && rows[r].store in stores && Rowless(db.storeThemes, rows[r].store)
    && Qualifies(db, rows[r].store, rows[r].theme, rows[r].version)
    && OnlyRow(db, rows, rows[r].store, rows[r].theme, rows[r].version, r)
  }

  ghost predicate OnlyRowsAdded(db: Db, e: Db) {
    && e == db.(storeThemes := e.storeThemes, nextId := e.nextId)
    && (forall r :: r in db.storeThemes ==> r in e.storeThemes && e.storeThemes[r] == db.storeThemes[r])
  }

  lemma QualifiesIsUnique(db: Db, store: nat, theme: nat, version: nat, theme': nat, version': nat)
    requires Sound(db) && Qualifies(db, store, theme, version) && Qualifies(db, store, theme', version')
    ensures theme == theme' && version == version'
  {
    assert SameSlug(db.themes, theme, theme');
    assert BothLatest(db.versions, version, version');
  }

  lemma EligibleExactly(db: Db, store: nat)
    requires Sound(db)
    ensures Eligible(db, store) <==> Rowless(db.storeThemes, store) && exists t, v :: Qualifies(db, store, t, v)
  {
    if Eligible(db, store) {
      var t := FindTheme(db.themes, db.stores[store].settings.value).value;
      assert Qualifies(db, store, t, FindLatest(db.versions, t).value);
    }
    if t, v :| Qualifies(db, store, t, v) {
      var found := FindTheme(db.themes, db.stores[store].settings.value);
      assert found.Some? && SameSlug(db.themes, found.value, t);
      assert FindLatest(db.versions, t).Some?;
    }
  }

  /** How the migration counts a listed store. */
  lemma OutcomesMean(db: Db, s: nat)
    requires Sound(db) && s in db.stores && db.stores[s].settings.Some?
    ensures var store, rowless := db.stores[s], Rowless(db.storeThemes, s);
            var named := store.settings.value != "";
            match OutcomeOf(db, s)
            case Migrates => rowless && exists t, v :: Qualifies(db, s, t, v)
            case SkipExisting => store.tenant.Some? && !rowless
            case SkipNoTheme => store.tenant.None? || (rowless && !named)
            case SkipNoMatch => store.tenant.Some? && rowless && named && forall t, v :: !Qualifies(db, s, t, v)
  {
    EligibleExactly(db, s);
  }

  lemma OneStoreMigrated(db: Db, store: nat)
    requires Sound(db)
    ensures var e := MigratedStore(db, store);
            && OnlyRowsAdded(db, e)
            && (forall r :: r in e.storeThemes && r !in db.storeThemes ==> Earned(db, e.storeThemes, [store], r))
            && (forall t, v :: Qualifies(db, store, t, v) && Rowless(db.storeThemes, store)
                               ==> exists r :: OnlyRow(db, e.storeThemes, store, t, v, r))
  {
    var e := MigratedStore(db, store);
    EligibleExactly(db, store);
    if Eligible(db, store) {
      var t := FindTheme(db.themes, db.stores[store].settings.value).value;
      var v := FindLatest(db.versions, t).value;
      assert Qualifies(db, store, t, v);
      assert OnlyRow(db, e.storeThemes, store, t, v, db.nextId);
      forall t', v' | Qualifies(db, store, t', v') ensures t' == t && v' == v {
        QualifiesIsUnique(db, store, t, v, t', v');
      }
    }
  }

  /** The same stores, themes and versions: whoever qualifies in one database qualifies in the other. */
  lemma QualifiesStays(db: Db, d: Db, store: nat, theme: nat, version: nat)
    requires OnlyRowsAdded(db, d)
    ensures Qualifies(db, store, theme, version) <==> Qualifies(d, store, theme, version)
  {
  }

  /** What the settings migration does, over the rows: every listed store that qualifies and has no row gets
      exactly one, active, on the theme its settings name and that theme's latest version; there are no other
      new rows; and everything else is as it was. */
  lemma {:induction false} SettingsAreMigrated(db: Db, stores: seq<nat>)
    requires Consistent(db)
    ensures var e := MigratedAll(db, stores);
            && OnlyRowsAdded(db, e)
            && (forall r :: r in e.storeThemes && r !in db.storeThemes ==> Earned(db, e.storeThemes, stores, r))
            && (forall s, t, v :: s in stores && Qualifies(db, s, t, v) && Rowless(db.storeThemes, s)
                                  ==> exists r :: OnlyRow(db, e.storeThemes, s, t, v, r))
  {
    if stores != [] {
      var init, last := stores[..|stores| - 1], stores[|stores| - 1];
      var d, e := MigratedAll(db, init), MigratedAll(db, stores);
      SettingsAreMigrated(db, init);
      MigrateKeepsConsistent(db, init);
      OneStoreMigrated(d, last);
      assert stores == init + [last];
      forall r | r in e.storeThemes && r !in db.storeThemes ensures Earned(db, e.storeThemes, stores, r) {
        EarnedStays(db, d, e, init, stores, last, r);
      }
      forall s, t, v | s in stores && Qualifies(db, s, t, v) && Rowless(db.storeThemes, s)
        ensures exists r :: OnlyRow(db, e.storeThemes, s, t, v, r)
      {
        GetsItsRow(db, d, e, init, stores, last, s, t, v);
      }
    }
  }

  lemma EarnedStays(db: Db, d: Db, e: Db, init: seq<nat>, stores: seq<nat>, last: nat, r: nat)
    requires OnlyRowsAdded(db, d) && OnlyRowsAdded(d, e) && stores == init + [last]
    requires forall q :: q in d.storeThemes && q !in db.storeThemes ==> Earned(db, d.storeThemes, init, q)
    requires forall q :: q in e.storeThemes && q !in d.storeThemes ==> Earned(d, e.storeThemes, [last], q)
    requires r in e.storeThemes && r !in db.storeThemes
    ensures Earned(db, e.storeThemes, stores, r)
  {
    var row := e.storeThemes[r];
    if r in d.storeThemes {
      assert Earned(db, d.storeThemes, init, r);
      OnlyRowStays(db, d, e, row.store, row.theme, row.version, last, r);
    } else {
      assert Earned(d, e.storeThemes, [last], r);
      QualifiesStays(db, d, row.store, row.theme, row.version);
      forall q | q in db.storeThemes ensures db.storeThemes[q].store != row.store {
        assert d.storeThemes[q] == db.storeThemes[q];
      }
    }
  }

  /** A store with a row gets no second one. */
  lemma OnlyRowStays(db: Db, d: Db, e: Db, s: nat, t: nat, v: nat, last: nat, r: nat)
    requires OnlyRowsAdded(d, e) && OnlyRow(db, d.storeThemes, s, t, v, r)
    requires forall q :: q in e.storeThemes && q !in d.storeThemes ==> Earned(d, e.storeThemes, [last], q)
    ensures OnlyRow(db, e.storeThemes, s, t, v, r)
  {
    forall q | q in e.storeThemes && e.storeThemes[q].store == s ensures q == r {
      if q !in d.storeThemes {
        assert false;
      }
    }
  }

  lemma GetsItsRow(db: Db, d: Db, e: Db, init: seq<nat>, stores: seq<nat>, last: nat, s: nat, t: nat, v: nat)
    requires Sound(db) && OnlyRowsAdded(db, d) && OnlyRowsAdded(d, e) && stores == init + [last] && s in stores
    requires forall q :: q in d.storeThemes && q !in db.storeThemes ==> Earned(db, d.storeThemes, init, q)
    requires forall q :: q in e.storeThemes && q !in d.storeThemes ==> Earned(d, e.storeThemes, [last], q)
    requires s in init ==> exists r :: OnlyRow(db, d.storeThemes, s, t, v, r)
    requires Qualifies(d, last, t, v) && Rowless(d.storeThemes, last)
             ==> exists r :: OnlyRow(d, e.storeThemes, last, t, v, r)
    requires Qualifies(db, s, t, v) && Rowless(db.storeThemes, s)
    ensures exists r :: OnlyRow(db, e.storeThemes, s, t, v, r)
  {
    QualifiesStays(db, d, s, t, v);
    if r :| r in d.storeThemes && d.storeThemes[r].store == s {
      assert r !in db.storeThemes && Earned(db, d.storeThemes, init, r);
      QualifiesIsUnique(db, s, t, v, d.storeThemes[r].theme, d.storeThemes[r].version);
      OnlyRowStays(db, d, e, s, t, v, last, r);
    } else {
      assert s !in init;
      var r :| OnlyRow(d, e.storeThemes, last, t, v, r);
      assert OnlyRow(db, e.storeThemes, s, t, v, r);
    }
  }

  /** Seeding and migrating together: a listed tenant store without a row whose settings name a built-in
      theme that was missing gets one active row on that theme and its one version. */
  lemma SeededThemesAreUsed(db: Db, slugs: seq<string>, stores: seq<nat>, s: nat) returns (t: nat, v: nat, r: nat)
    requires Consistent(db) && s in stores && s in db.stores && db.stores[s].tenant.Some?
    requires db.stores[s].settings.Some? && db.stores[s].settings.value != "" && db.stores[s].settings.value in slugs
    requires !HasTheme(db.themes, db.stores[s].settings.value) && Rowless(db.storeThemes, s)
    ensures var seeded := SeededBuiltins(db, slugs);
            var e := MigratedAll(seeded, stores);
            && t in e.themes && e.themes[t].slug == db.stores[s].settings.value
            && OnlyVersion(e.versions, t, v)
            && OnlyRow(db, e.storeThemes, s, t, v, r)
  {
    var seeded := SeededBuiltins(db, slugs);
    BuiltinsAreSeeded(db, slugs);
    SeedBuiltinsKeepConsistent(db, slugs);
    assert HasTheme(seeded.themes, db.stores[s].settings.value);
    t :| t in seeded.themes && seeded.themes[t].slug == db.stores[s].settings.value;
    assert t !in db.themes;
    assert FreshTheme(db, seeded, slugs, t);
    v :| OnlyVersion(seeded.versions, t, v);
    SettingsAreMigrated(seeded, stores);
    assert Qualifies(seeded, s, t, v);
    r :| OnlyRow(seeded, MigratedAll(seeded, stores).storeThemes, s, t, v, r);
  }

  // ---- seed, activate and restore ----------------------------------------------------------------

  /** `seed` of the external theme adds at most one theme, which is external, and one version; existing
      themes stay, existing versions keep theme and number, those of other themes their latest mark too. */
  lemma SeedLeavesTheRest(db: Db, slug: string, number: string)
    requires Sound(db)
    ensures var e := Seeded(db, slug, number);
            && e == db.(themes := e.themes, versions := e.versions, nextId := e.nextId)
            && (forall t :: t in db.themes ==> t in e.themes && e.themes[t] == db.themes[t])
            && (forall t :: t in e.themes && t !in db.themes ==> e.themes[t] == Theme(slug, External))
            && (forall v :: v in db.versions ==>
                  && v in e.versions && e.versions[v].theme == db.versions[v].theme
                  && e.versions[v].number == db.versions[v].number
                  && (e.versions[v] != db.versions[v] ==> e.themes[e.versions[v].theme].slug == slug))
            && (forall v :: v in e.versions && v !in db.versions ==>
                  e.versions[v].theme in e.themes && e.themes[e.versions[v].theme].slug == slug
                  && e.versions[v].number == number)
  {
    SeededThemes(db, slug, number);
    SeededVersions(db, slug, number);
  }

  /** `activate` succeeds exactly when the theme and the store exist and the store has a row of the theme or a
      tenant to make one. */
  lemma ActivateSucceedsExactly(db: Db, slug: string, subdomain: string, number: string, pick: Option<nat>)
    requires Sound(db)
    requires FindTheme(db.themes, slug).Some? && FindStore(db.stores, subdomain).Some?
             ==> Picks(db.storeThemes, FindStore(db.stores, subdomain).value, FindTheme(db.themes, slug).value, pick)
    ensures Activated(db, slug, subdomain, number, pick).Some? <==>
            exists t, s :: CanActivate(db, slug, subdomain, t, s)
  {
    if t, s :| CanActivate(db, slug, subdomain, t, s) {
      assert SameSlug(db.themes, t, FindTheme(db.themes, slug).value);
      assert SameSubdomain(db.stores, s, FindStore(db.stores, subdomain).value);
    }
    if Activated(db, slug, subdomain, number, pick).Some? {
      assert CanActivate(db, slug, subdomain, FindTheme(db.themes, slug).value, FindStore(db.stores, subdomain).value);
    }
  }

  ghost predicate CanActivate(db: Db, slug: string, subdomain: string, t: nat, s: nat) {
    && t in db.themes && db.themes[t].slug == slug && s in db.stores && db.stores[s].subdomain == subdomain
    && (db.stores[s].tenant.Some? || exists r :: r in db.storeThemes && db.storeThemes[r].store == s
                                                 && db.storeThemes[r].theme == t)
  }

  /** Activation touches nothing but the store's rows, its installations and at most one new version, which
      is not the latest; the store's other rows only lose their active mark. */
  lemma ActivateLeavesTheRest(db: Db, theme: nat, store: nat, number: string, pick: Option<nat>)
    requires Sound(db) && theme in db.themes && store in db.stores && Picks(db.storeThemes, store, theme, pick)
    requires ActivatedRow(db, theme, store, number, pick).Some?
    ensures var e := ActivatedRow(db, theme, store, number, pick).value;
            var row := if pick.Some? then pick.value else db.nextId + 1;
            && e.themes == db.themes && e.stores == db.stores && e.markets == db.markets
            && (forall v :: v in db.versions ==> v in e.versions && e.versions[v] == db.versions[v])
            && (forall v :: v in e.versions && v !in db.versions ==> e.versions[v] == Version(theme, number, false))
            && (forall r :: r in e.storeThemes && r != row ==>
                  && r in db.storeThemes
                  && e.storeThemes[r] == db.storeThemes[r].(active := db.storeThemes[r].store != store
                                                                      && db.storeThemes[r].active))
            && (forall r :: r in db.storeThemes ==> r in e.storeThemes)
            && (db.stores[store].tenant.Some? && row in e.storeThemes
                ==> e.storeThemes[row].tenant == db.stores[store].tenant.value)
            && e.installs.Keys == db.installs.Keys
            && (forall i :: i in db.installs ==>
                  e.installs[i] == db.installs[i] ||
                  (db.installs[i].store == store && e.installs[i] == db.installs[i].(active := e.installs[i].active)))
  {
    if pick.Some? {
      assert RowRefers(db, db.storeThemes[pick.value]);
    }
  }

  /** Restoring a row of the store makes it the store's only active row and its theme's marketplace entry
      the store's only active installation; nothing else changes. */
  lemma RestoredPoints(db: Db, store: nat, row: nat)
    requires Sound(db) && RowOfStore(db, store, row)
    ensures var e := RestoredRow(db, store, row);
            var slug := db.themes[db.storeThemes[row].theme].slug;
            && e == db.(storeThemes := e.storeThemes, installs := e.installs)
            && e.storeThemes.Keys == db.storeThemes.Keys && e.installs.Keys == db.installs.Keys
            && (forall r :: r in e.storeThemes ==>
                  e.storeThemes[r] == db.storeThemes[r].(active := if db.storeThemes[r].store == store then r == row
                                                                   else db.storeThemes[r].active))
            && (forall i :: i in e.installs ==>
                  e.installs[i] == db.installs[i].(active := if db.installs[i].store == store
                                                             then db.markets[db.installs[i].market] == slug
                                                             else db.installs[i].active))
  {
    assert RowRefers(db, db.storeThemes[row]);
    var slug := db.themes[db.storeThemes[row].theme].slug;
    forall i | i in db.installs
      ensures FindMarket(db.markets, slug) == Some(db.installs[i].market)
              <==> db.markets[db.installs[i].market] == slug
    {
      if db.markets[db.installs[i].market] == slug {
        assert SameMarketSlug(db.markets, db.installs[i].market, FindMarket(db.markets, slug).value);
      }
    }
  }
}
