/** The theme scripts as they run: `dev_activate_v3_theme.py`, `migrate_theme_settings.py`,
    `seed_numu_theme.py` and `seed_themes.py`, statement by statement on the shared tables. */
module ThemeScripts {
  import opened Prelude
  import opened ThemeTables

  // ---- Query results are determined by the unique columns ----------------------------------------

  lemma ThemeFound(db: Db, t: nat, slug: string)
    requires SlugsUnique(db.themes) && t in db.themes && db.themes[t].slug == slug
    ensures FindTheme(db.themes, slug) == Some(t)
  {
    assert SameSlug(db.themes, FindTheme(db.themes, slug).value, t);
  }

  lemma StoreFound(db: Db, s: nat, subdomain: string)
    requires NamesUnique(db) && s in db.stores && db.stores[s].subdomain == subdomain
    ensures FindStore(db.stores, subdomain) == Some(s)
  {
    assert SameSubdomain(db.stores, FindStore(db.stores, subdomain).value, s);
  }

  lemma VersionFound(db: Db, v: nat, theme: nat, number: string)
    requires VersionsUnique(db.versions)
    requires v in db.versions && db.versions[v].theme == theme && db.versions[v].number == number
    ensures FindVersion(db.versions, theme, number) == Some(v)
  {
    assert SameNumber(db.versions, FindVersion(db.versions, theme, number).value, v);
  }

  lemma LatestFound(db: Db, v: nat, theme: nat)
    requires VersionsUnique(db.versions) && v in db.versions && db.versions[v].theme == theme && db.versions[v].latest
    ensures FindLatest(db.versions, theme) == Some(v)
  {
    assert BothLatest(db.versions, FindLatest(db.versions, theme).value, v);
  }

  lemma MarketFound(db: Db, m: nat, slug: string)
    requires NamesUnique(db) && m in db.markets && db.markets[m] == slug
    ensures FindMarket(db.markets, slug) == Some(m)
  {
    assert SameMarketSlug(db.markets, FindMarket(db.markets, slug).value, m);
  }

  // ---- Row-by-row writes -------------------------------------------------------------------------

  /** Each table of the trace differs from the one before in a single row. */
  ghost predicate RowByRow(start: StoreThemes, trace: seq<StoreThemes>) {
    forall i :: 0 <= i < |trace| ==> SingleWrite(([start] + trace)[i], trace[i])
  }

  ghost predicate SingleWrite(before: StoreThemes, after: StoreThemes) {
    exists r :: r in after && after == before[r := after[r]]
  }

  /** The partial unique index holds at every step. */
  ghost predicate NeverTwoActive(trace: seq<StoreThemes>) {
    forall t :: t in trace ==> OneActive(t)
  }

  function Last(start: StoreThemes, trace: seq<StoreThemes>): StoreThemes {
    ([start] + trace)[|trace|]
  }

  lemma TraceGrows(start: StoreThemes, trace: seq<StoreThemes>, r: nat, row: StoreTheme)
    requires RowByRow(start, trace) && NeverTwoActive(trace)
    requires OneActive(Last(start, trace)[r := row])
    ensures var longer := trace + [Last(start, trace)[r := row]];
            RowByRow(start, longer) && NeverTwoActive(longer) && Last(start, longer) == Last(start, trace)[r := row]
  {
    var next := Last(start, trace)[r := row];
    var longer := trace + [next];
    assert next == Last(start, trace)[r := next[r]];
    forall i | 0 <= i < |longer| ensures SingleWrite(([start] + longer)[i], longer[i]) {
      assert ([start] + longer)[i] == ([start] + trace)[i];
      if i < |trace| {
        assert SingleWrite(([start] + trace)[i], trace[i]);
      }
    }
  }

  class Scripts {
    var themes: map<nat, Theme>
    var versions: map<nat, Version>
    var stores: map<nat, Store>
    var storeThemes: StoreThemes
    var markets: map<nat, string>
    var installs: Installs
    var nextId: nat

    ghost function View(): Db
      reads this
    {
      Db(themes, versions, stores, storeThemes, markets, installs, nextId)
    }

    constructor (db: Db)
      ensures View() == db
    {
      themes, versions, stores, storeThemes := db.themes, db.versions, db.stores, db.storeThemes;
      markets, installs, nextId := db.markets, db.installs, db.nextId;
    }

    /** `UPDATE store_themes SET is_active=false WHERE store_id`, in whatever order the rows are written. */
    method DeactivateRows(store: nat) returns (ghost trace: seq<StoreThemes>)
      requires OneActive(storeThemes)
      modifies this`storeThemes
      ensures storeThemes == Deactivated(old(storeThemes), store)
      ensures RowByRow(old(storeThemes), trace) && NeverTwoActive(trace)
      ensures storeThemes == Last(old(storeThemes), trace)
    {
      ghost var start := storeThemes;
      var todo := set r | r in storeThemes && storeThemes[r].store == store;
      trace := [];
      while todo != {}
        invariant forall r :: r in todo ==> r in start && start[r].store == store
        invariant storeThemes == map r | r in start ::
                    if start[r].store == store && r !in todo then start[r].(active := false) else start[r]
        invariant OneActive(storeThemes) && RowByRow(start, trace) && NeverTwoActive(trace)
        invariant storeThemes == Last(start, trace)
        decreases todo
      {
        var r :| r in todo;
        var row := storeThemes[r].(active := false);
        InactiveKeepsOneActive(storeThemes, r, row);
        TraceGrows(start, trace, r, row);
        storeThemes := storeThemes[r := row];
        trace := trace + [storeThemes];
        todo := todo - {r};
      }
    }

    /** The marketplace mirror: all installations of the store off, then the theme's on. */
    method MirrorInstalls(store: nat, slug: string)
      requires NamesUnique(View())
      modifies this`installs
      ensures installs == Mirrored(old(installs), store, FindMarket(old(markets), slug))
    {
      ghost var before := View();
      var off := map i | i in installs ::
                   if installs[i].store == store then installs[i].(active := false) else installs[i];
      if m :| m in markets && markets[m] == slug {
        MarketFound(before, m, slug);
        installs := map i | i in off ::
          if off[i].store == store && off[i].market == m then off[i].(active := true) else off[i];
      } else {
        installs := off;
      }
    }

    /** `activate`. No two rows of a store are active after any single row write, in any row order. */
    method Activate(slug: string, subdomain: string, number: string)
      returns (ok: bool, ghost pick: Option<nat>, ghost trace: seq<StoreThemes>)
      requires Consistent(View())
      modifies this
      ensures FindTheme(old(themes), slug).Some? && FindStore(old(stores), subdomain).Some?
              ==> Picks(old(storeThemes), FindStore(old(stores), subdomain).value,
                        FindTheme(old(themes), slug).value, pick)
      ensures ok == Activated(old(View()), slug, subdomain, number, pick).Some?
      ensures ok ==> View() == Activated(old(View()), slug, subdomain, number, pick).value
      ensures !ok ==> View() == old(View())
      ensures RowByRow(old(storeThemes), trace) && NeverTwoActive(trace)
      ensures Consistent(View())
    {
      ghost var start := View();
      ok, pick, trace := false, None, [];
      if t :| t in themes && themes[t].slug == slug {
        ThemeFound(start, t, slug);
        if s :| s in stores && stores[s].subdomain == subdomain {
          StoreFound(start, s, subdomain);
          ok, pick, trace := ActivateFound(t, s, number);
          if ok {
            ActivateKeepsConsistent(start, t, s, number, pick);
          }
        }
      }
    }

    method ActivateFound(theme: nat, store: nat, number: string)
      returns (ok: bool, ghost pick: Option<nat>, ghost trace: seq<StoreThemes>)
      requires Consistent(View()) && theme in themes && store in stores
      modifies this
      ensures Picks(old(storeThemes), store, theme, pick)
      ensures ok == ActivatedRow(old(View()), theme, store, number, pick).Some?
      ensures ok ==> View() == ActivatedRow(old(View()), theme, store, number, pick).value
      ensures !ok ==> View() == old(View())
      ensures RowByRow(old(storeThemes), trace) && NeverTwoActive(trace)
    {
      var saved := (versions, storeThemes);
      var version := UpsertVersion(theme, number);
      ok, pick, trace := FlipRows(theme, store, version);
      if !ok {
        versions, storeThemes := saved.0, saved.1;
        return;
      }
      MirrorInstalls(store, themes[theme].slug);
      nextId := nextId + 2;
    }

    /** Deactivates the store's rows, then updates or inserts the theme's row as the active one. */
    method FlipRows(theme: nat, store: nat, version: nat)
      returns (ok: bool, ghost pick: Option<nat>, ghost trace: seq<StoreThemes>)
      requires OneActive(storeThemes) && store in stores
      modifies this`storeThemes
      ensures Picks(old(storeThemes), store, theme, pick)
      ensures ok == (pick.Some? || stores[store].tenant.Some?)
      ensures ok && pick.Some? ==>
                storeThemes == var idle := Deactivated(old(storeThemes), store);
                               idle[pick.value := idle[pick.value].(version := version, active := true)]
      ensures ok && pick.None? ==>
                storeThemes == Deactivated(old(storeThemes), store)[nextId + 1 :=
                                 StoreTheme(stores[store].tenant.value, store, theme, version, true)]
      ensures RowByRow(old(storeThemes), trace) && NeverTwoActive(trace)
    {
      ghost var start := storeThemes;
      trace := DeactivateRows(store);
      var id := nextId + 1;
      var row: StoreTheme;
      if r :| r in storeThemes && storeThemes[r].store == store && storeThemes[r].theme == theme {
        pick, id := Some(r), r;
        row := storeThemes[r].(version := version, active := true);
      } else {
        pick := None;
        assert forall r :: r in start ==> r in storeThemes && storeThemes[r].store == start[r].store
                                          && storeThemes[r].theme == start[r].theme;
        if stores[store].tenant.None? {
          return false, pick, trace;
        }
        row := StoreTheme(stores[store].tenant.value, store, theme, version, true);
      }
      ActiveRowKeepsOneActive(storeThemes, id, row);
      TraceGrows(start, trace, id, row);
      storeThemes := storeThemes[id := row];
      return true, pick, trace + [storeThemes];
    }

    /** The dev version is updated when it exists and inserted, not latest, when it does not. */
    method UpsertVersion(theme: nat, number: string) returns (version: nat)
      requires VersionsUnique(versions)
      modifies this`versions
      ensures var found := FindVersion(old(versions), theme, number);
              && version == (if found.Some? then found.value else nextId)
              && versions == if found.Some? then old(versions)
                             else old(versions)[version := Version(theme, number, false)]
    {
      if v :| v in versions && versions[v].theme == theme && versions[v].number == number {
        VersionFound(View(), v, theme, number);
        version := v;
      } else {
        version := nextId;
        versions := versions[version := Version(theme, number, false)];
      }
    }

    /** `restore`; the single update of `store_themes` is taken as one step. */
    method Restore(subdomain: string, row: nat) returns (found: bool)
      requires Sound(View())
      modifies this`storeThemes, this`installs
      ensures found == FindStore(old(stores), subdomain).Some?
      ensures View() == if found then RestoredRow(old(View()), FindStore(old(stores), subdomain).value, row)
                        else old(View())
    {
      ghost var start := View();
      if s :| s in stores && stores[s].subdomain == subdomain {
        StoreFound(start, s, subdomain);
        storeThemes := map r | r in storeThemes ::
          if storeThemes[r].store == s then storeThemes[r].(active := r == row) else storeThemes[r];
        if row in storeThemes && storeThemes[row].theme in themes {
          MirrorInstalls(s, themes[storeThemes[row].theme].slug);
        }
        return true;
      }
      return false;
    }

    /** `themes_by_slug`: the internal themes. */
    method InternalThemes() returns (bySlug: map<string, nat>)
      requires SlugsUnique(themes)
      ensures forall slug :: slug in bySlug <==>
                FindTheme(themes, slug).Some? && themes[FindTheme(themes, slug).value].kind == Internal
      ensures forall slug :: slug in bySlug ==> FindTheme(themes, slug) == Some(bySlug[slug])
    {
      bySlug := map[];
      var todo := themes.Keys;
      while todo != {}
        invariant forall slug :: slug in bySlug
                                 ==> bySlug[slug] in themes && themes[bySlug[slug]] == Theme(slug, Internal)
        invariant forall t :: t in themes && t !in todo && themes[t].kind == Internal ==> themes[t].slug in bySlug
        decreases todo
      {
        var t :| t in todo;
        if themes[t].kind == Internal {
          bySlug := bySlug[themes[t].slug := t];
        }
        todo := todo - {t};
      }
      forall slug | slug in bySlug ensures FindTheme(themes, slug) == Some(bySlug[slug]) {
        ThemeFound(View(), bySlug[slug], slug);
      }
    }

    /** `latest_versions`: agrees with looking up each theme's latest version in the table. */
    method LatestVersions() returns (byTheme: map<nat, nat>)
      requires VersionsUnique(versions)
      ensures forall t :: t in byTheme <==> FindLatest(versions, t).Some?
      ensures forall t :: t in byTheme ==> FindLatest(versions, t) == Some(byTheme[t])
    {
      byTheme := map[];
      var todo := versions.Keys;
      while todo != {}
        invariant forall t :: t in byTheme ==> && byTheme[t] in versions && versions[byTheme[t]].theme == t
                                               && versions[byTheme[t]].latest
        invariant forall v :: v in versions && v !in todo && versions[v].latest ==> versions[v].theme in byTheme
        decreases todo
      {
        var v :| v in todo;
        if versions[v].latest {
          byTheme := byTheme[versions[v].theme := v];
        }
        todo := todo - {v};
      }
      forall t | t in byTheme ensures FindLatest(versions, t) == Some(byTheme[t]) {
        LatestFound(View(), byTheme[t], t);
      }
    }

    /** `migrate_theme_settings` over the stores its query listed. Every listed store is counted once; a
        dry run counts the same and writes nothing. An empty catalog ends the run. */
    method MigrateThemeSettings(listed: seq<nat>, dryRun: bool)
      returns (migrated: nat, skippedExisting: nat, skippedNoTheme: nat, skippedNoMatch: nat)
      requires Consistent(View())
      requires forall s :: s in listed ==> s in stores && stores[s].settings.Some?
      requires forall i, j :: 0 <= i < j < |listed| ==> listed[i] != listed[j]
      modifies this`storeThemes, this`nextId
      ensures View() == if dryRun then old(View()) else MigratedAll(old(View()), listed)
      ensures migrated == CountOf(old(View()), listed, Migrates)
      ensures (exists t :: t in themes && themes[t].kind == Internal)
              ==> && Tally(old(View()), listed, migrated, skippedExisting, skippedNoTheme, skippedNoMatch)
                  && migrated + skippedExisting + skippedNoTheme + skippedNoMatch == |listed|
      ensures Consistent(View())
    {
      ghost var start := View();
      migrated, skippedExisting, skippedNoTheme, skippedNoMatch := 0, 0, 0, 0;
      var bySlug := InternalThemes();
      if bySlug == map[] {
        forall t | t in themes ensures themes[t].kind != Internal {
          ThemeFound(start, t, themes[t].slug);
          assert themes[t].slug !in bySlug;
        }
        NothingEligible(start, listed);
        return;
      }
      var byTheme := LatestVersions();
      migrated, skippedExisting, skippedNoTheme, skippedNoMatch := ConvertListed(listed, dryRun, bySlug, byTheme);
      MigrateKeepsConsistent(start, listed);
    }

    /** The two dictionaries agree with the tables. */
    ghost predicate Dictionaries(bySlug: map<string, nat>, byTheme: map<nat, nat>)
      reads this`themes, this`versions
    {
      && (forall slug :: slug in bySlug <==> && FindTheme(themes, slug).Some?
                                             && themes[FindTheme(themes, slug).value].kind == Internal)
      && (forall slug :: slug in bySlug ==> FindTheme(themes, slug) == Some(bySlug[slug]))
      && (forall t :: t in byTheme <==> FindLatest(versions, t).Some?)
      && (forall t :: t in byTheme ==> FindLatest(versions, t) == Some(byTheme[t]))
    }

    /** The loop over the listed stores. */
    method ConvertListed(listed: seq<nat>, dryRun: bool, bySlug: map<string, nat>, byTheme: map<nat, nat>)
      returns (migrated: nat, skippedExisting: nat, skippedNoTheme: nat, skippedNoMatch: nat)
      requires IdsGivenOut(View()) && Dictionaries(bySlug, byTheme)
      requires AllListed(View(), listed)
      requires forall i, j :: 0 <= i < j < |listed| ==> listed[i] != listed[j]
      modifies this`storeThemes, this`nextId
      ensures View() == if dryRun then old(View()) else MigratedAll(old(View()), listed)
      ensures Tally(old(View()), listed, migrated, skippedExisting, skippedNoTheme, skippedNoMatch)
      ensures migrated + skippedExisting + skippedNoTheme + skippedNoMatch == |listed|
    {
      ghost var start := View();
      migrated, skippedExisting, skippedNoTheme, skippedNoMatch := 0, 0, 0, 0;
      for i := 0 to |listed|
        invariant View() == if dryRun then start else MigratedAll(start, listed[..i])
        invariant Tally(start, listed[..i], migrated, skippedExisting, skippedNoTheme, skippedNoMatch)
      {
        NextListed(start, View(), listed, i, dryRun);
        TallyPush(start, listed, i, migrated, skippedExisting, skippedNoTheme, skippedNoMatch);
        var plan := ConvertOne(listed[i], dryRun, bySlug, byTheme);
        match plan {
          case Planned(_) => migrated := migrated + 1;
          case NoTheme => skippedNoTheme := skippedNoTheme + 1;
          case Existing => skippedExisting := skippedExisting + 1;
          case NoMatch => skippedNoMatch := skippedNoMatch + 1;
        }
      }
      assert listed[..|listed|] == listed;
      TallyCountsAll(start, listed);
    }

    /** One turn of the loop. */
    method ConvertOne(s: nat, dryRun: bool, bySlug: map<string, nat>, byTheme: map<nat, nat>) returns (plan: Plan)
      requires s in stores && stores[s].settings.Some? && Dictionaries(bySlug, byTheme)
      modifies this`storeThemes, this`nextId
      ensures Kind(plan) == OutcomeOf(old(View()), s)
      ensures View() == if dryRun then old(View()) else MigratedStore(old(View()), s)
    {
      plan := PlanRow(s, bySlug, byTheme);
      if plan.Planned? && !dryRun {
        storeThemes := storeThemes[nextId := plan.row];
        nextId := nextId + 1;
      }
    }

    /** The skip rules for one store, in the script's order. */
    method PlanRow(s: nat, bySlug: map<string, nat>, byTheme: map<nat, nat>) returns (plan: Plan)
      requires s in stores && stores[s].settings.Some? && Dictionaries(bySlug, byTheme)
      ensures Kind(plan) == OutcomeOf(View(), s)
      ensures plan.Planned? ==>
                var theme := FindTheme(themes, stores[s].settings.value).value;
                plan.row == StoreTheme(stores[s].tenant.value, s, theme, FindLatest(versions, theme).value, true)
    {
      if stores[s].tenant.None? {
        return NoTheme;
      }
      if r :| r in storeThemes && storeThemes[r].store == s {
        return Existing;
      }
      var base := stores[s].settings.value;
      if base == "" {
        return NoTheme;
      }
      if base !in bySlug || bySlug[base] !in byTheme {
        return NoMatch;
      }
      return Planned(StoreTheme(stores[s].tenant.value, s, bySlug[base], byTheme[bySlug[base]], true));
    }

    /** `seed` of `seed_numu_theme.py`. */
    method SeedTheme(slug: string, number: string)
      requires Consistent(View())
      modifies this`themes, this`versions, this`nextId
      ensures View() == Seeded(old(View()), slug, number) && Consistent(View())
    {
      ghost var start := View();
      var theme := nextId;
      if t :| t in themes && themes[t].slug == slug {
        ThemeFound(start, t, slug);
        theme := t;
      } else {
        themes := themes[theme := Theme(slug, External)];
      }
      UpsertLatest(theme, number);
      nextId := nextId + 2;
      SeedKeepsConsistent(start, slug, number);
    }

    /** All versions of the theme are demoted, then the given one is updated or inserted as the latest. */
    method UpsertLatest(theme: nat, number: string)
      requires VersionsUnique(versions)
      modifies this`versions
      ensures var found := FindVersion(old(versions), theme, number);
              var id := if found.Some? then found.value else nextId + 1;
              versions == Demoted(old(versions), theme)[id := Version(theme, number, true)]
    {
      ghost var start := View();
      versions := map v | v in versions ::
                    if versions[v].theme == theme then versions[v].(latest := false) else versions[v];
      if v :| v in versions && versions[v].theme == theme && versions[v].number == number {
        VersionFound(start, v, theme, number);
        versions := versions[v := versions[v].(latest := true)];
      } else {
        assert forall w :: w in start.versions ==> w in versions && versions[w].theme == start.versions[w].theme
                                                   && versions[w].number == start.versions[w].number;
        versions := versions[nextId + 1 := Version(theme, number, true)];
      }
    }

    /** `seed_themes`: every defined theme exists afterwards, those that existed are untouched. */
    method SeedThemes(slugs: seq<string>) returns (created: nat, skipped: nat)
      requires Consistent(View())
      modifies this`themes, this`versions, this`nextId
      ensures View() == SeededBuiltins(old(View()), slugs) && Consistent(View())
      ensures created + skipped == |slugs| && nextId == old(nextId) + 2 * created
    {
      created, skipped := 0, 0;
      for i := 0 to |slugs|
        invariant View() == SeededBuiltins(old(View()), slugs[..i]) && Consistent(View())
        invariant created + skipped == i && nextId == old(nextId) + 2 * created
      {
        assert slugs[..i + 1][..i] == slugs[..i];
        SeededBuiltinKeepsConsistent(View(), slugs[i]);
        var missing := SeedOne(slugs[i]);
        if missing {
          created := created + 1;
        } else {
          skipped := skipped + 1;
        }
      }
      assert slugs[..|slugs|] == slugs;
    }

    method SeedOne(slug: string) returns (missing: bool)
      requires SlugsUnique(themes)
      modifies this`themes, this`versions, this`nextId
      ensures View() == SeededBuiltin(old(View()), slug)
      ensures nextId == old(nextId) + if missing then 2 else 0
    {
      if t :| t in themes && themes[t].slug == slug {
        ThemeFound(View(), t, slug);
        return false;
      }
      themes := themes[nextId := Theme(slug, Internal)];
      versions := versions[nextId + 1 := Version(nextId, "1.0.0", true)];
      nextId := nextId + 2;
      return true;
    }
  }

  datatype Plan = Planned(row: StoreTheme) | NoTheme | Existing | NoMatch

  function Kind(plan: Plan): Outcome {
    match plan
    case Planned(_) => Migrates
    case NoTheme => SkipNoTheme
    case Existing => SkipExisting
    case NoMatch => SkipNoMatch
  }

  lemma InactiveKeepsOneActive(rows: StoreThemes, id: nat, row: StoreTheme)
    requires OneActive(rows) && !row.active
    ensures OneActive(rows[id := row])
  {
    var after := rows[id := row];
    forall r, q | BothActive(after, r, q) ensures r == q {
      assert BothActive(rows, r, q);
    }
  }

  lemma ListedPush(db: Db, listed: seq<nat>, i: nat)
    requires i < |listed|
    ensures MigratedAll(db, listed[..i + 1]) == MigratedStore(MigratedAll(db, listed[..i]), listed[i])
  {
    assert listed[..i + 1][..i] == listed[..i];
  }

  lemma TallyPush(db: Db, listed: seq<nat>, i: nat, migrated: nat, existing: nat, noTheme: nat, noMatch: nat)
    requires i < |listed| && AllListed(db, listed)
    requires Tally(db, listed[..i], migrated, existing, noTheme, noMatch)
    ensures match OutcomeOf(db, listed[i])
            case Migrates => Tally(db, listed[..i + 1], migrated + 1, existing, noTheme, noMatch)
            case SkipExisting => Tally(db, listed[..i + 1], migrated, existing + 1, noTheme, noMatch)
            case SkipNoTheme => Tally(db, listed[..i + 1], migrated, existing, noTheme + 1, noMatch)
            case SkipNoMatch => Tally(db, listed[..i + 1], migrated, existing, noTheme, noMatch + 1)
  {
    assert listed[..i + 1][..i] == listed[..i];
  }

  ghost predicate AllListed(db: Db, stores: seq<nat>) {
    forall s :: s in stores ==> s in db.stores && db.stores[s].settings.Some?
  }

  /** How many of the stores come out this way. */
  ghost function CountOf(db: Db, stores: seq<nat>, outcome: Outcome): nat
    requires AllListed(db, stores)
  {
    if stores == [] then 0
    else
      var last := stores[|stores| - 1];
      CountOf(db, stores[..|stores| - 1], outcome) + if OutcomeOf(db, last) == outcome then 1 else 0
  }

  /** The four counters of the migration, each the number of stores that come out its way. */
  ghost predicate Tally(db: Db, stores: seq<nat>, migrated: nat, existing: nat, noTheme: nat, noMatch: nat) {
    && AllListed(db, stores)
    && migrated == CountOf(db, stores, Migrates)
    && existing == CountOf(db, stores, SkipExisting)
    && noTheme == CountOf(db, stores, SkipNoTheme)
    && noMatch == CountOf(db, stores, SkipNoMatch)
  }

  /** Every listed store is counted once. */
  lemma {:induction false} TallyCountsAll(db: Db, stores: seq<nat>)
    requires AllListed(db, stores)
    ensures CountOf(db, stores, Migrates) + CountOf(db, stores, SkipExisting)
            + CountOf(db, stores, SkipNoTheme) + CountOf(db, stores, SkipNoMatch) == |stores|
  {
    if stores != [] {
      TallyCountsAll(db, stores[..|stores| - 1]);
    }
  }

  lemma OutcomeStays(db: Db, done: seq<nat>, s: nat)
    requires s !in done && IdsGivenOut(db) && s in db.stores && db.stores[s].settings.Some?
    ensures var e := MigratedAll(db, done);
            && IdsGivenOut(e)
            && e.themes == db.themes && e.versions == db.versions && e.stores == db.stores
            && OutcomeOf(e, s) == OutcomeOf(db, s)
  {
    EligibilityStays(db, done, s);
  }

  /** The state in which the loop comes to store `i`, and the one it leaves for the next. */
  lemma NextListed(start: Db, now: Db, listed: seq<nat>, i: nat, dryRun: bool)
    requires IdsGivenOut(start) && AllListed(start, listed) && i < |listed|
    requires forall j, k :: 0 <= j < k < |listed| ==> listed[j] != listed[k]
    requires now == if dryRun then start else MigratedAll(start, listed[..i])
    ensures listed[i] in start.stores && start.stores[listed[i]].settings.Some?
    ensures now.themes == start.themes && now.versions == start.versions && now.stores == start.stores
    ensures OutcomeOf(now, listed[i]) == OutcomeOf(start, listed[i])
    ensures (if dryRun then now else MigratedStore(now, listed[i]))
         == if dryRun then start else MigratedAll(start, listed[..i + 1])
  {
    assert listed[i] in listed && listed[i] !in listed[..i];
    ListedPush(start, listed, i);
    OutcomeStays(start, listed[..i], listed[i]);
  }

  lemma {:induction false} NothingEligible(db: Db, stores: seq<nat>)
    requires AllListed(db, stores)
    requires forall t :: t in db.themes ==> db.themes[t].kind != Internal
    ensures MigratedAll(db, stores) == db && CountOf(db, stores, Migrates) == 0
  {
    if stores != [] {
      NothingEligible(db, stores[..|stores| - 1]);
    }
  }

  lemma OtherStoresRow(rows: StoreThemes, id: nat, row: StoreTheme, s: nat)
    requires id !in rows && row.store != s
    ensures HasRow(rows[id := row], s) <==> HasRow(rows, s)
  {
    if r :| r in rows && rows[r].store == s {
      assert r in rows[id := row];
    }
  }

  /** Converting other stores changes neither a store's eligibility nor what it would get. */
  lemma {:induction false} EligibilityStays(db: Db, done: seq<nat>, s: nat)
    requires s !in done && IdsGivenOut(db)
    ensures var e := MigratedAll(db, done);
            && IdsGivenOut(e)
            && e.themes == db.themes && e.versions == db.versions && e.stores == db.stores
            && e.markets == db.markets && e.installs == db.installs
            && (Eligible(e, s) <==> Eligible(db, s))
            && (HasRow(e.storeThemes, s) <==> HasRow(db.storeThemes, s))
  {
    if done != [] {
      var e, last := MigratedAll(db, done[..|done| - 1]), done[|done| - 1];
      EligibilityStays(db, done[..|done| - 1], s);
      if Eligible(e, last) {
        OtherStoresRow(e.storeThemes, e.nextId, MigratedStore(e, last).storeThemes[e.nextId], s);
      }
    }
  }
}
