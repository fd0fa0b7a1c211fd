/** The tables that the four theme scripts share, what each script makes of them, and what every run of
    the scripts keeps. A row's key is its id; `nextId` stands for the fresh UUIDs. */
module ThemeTables {
  import opened Prelude

  datatype ThemeKind = Internal | External
  datatype Theme = Theme(slug: string, kind: ThemeKind)
  datatype Version = Version(theme: nat, number: string, latest: bool)
  /** `settings` is the base theme named in `theme_settings`, `None` when the column is NULL. */
  datatype Store = Store(subdomain: string, tenant: Option<nat>, settings: Option<string>)
  datatype StoreTheme = StoreTheme(tenant: nat, store: nat, theme: nat, version: nat, active: bool)
  datatype Install = Install(store: nat, market: nat, active: bool)

  type StoreThemes = map<nat, StoreTheme>
  type Installs = map<nat, Install>

  datatype Db = Db(themes: map<nat, Theme>, versions: map<nat, Version>, stores: map<nat, Store>,
                   storeThemes: StoreThemes, markets: map<nat, string>, installs: Installs, nextId: nat)

  // ---- Lookups -----------------------------------------------------------------------------------

  ghost function FindTheme(themes: map<nat, Theme>, slug: string): Option<nat> {
    if t :| t in themes && themes[t].slug == slug then Some(t) else None
  }

  ghost function FindStore(stores: map<nat, Store>, subdomain: string): Option<nat> {
    if s :| s in stores && stores[s].subdomain == subdomain then Some(s) else None
  }

  ghost function FindVersion(versions: map<nat, Version>, theme: nat, number: string): Option<nat> {
    if v :| v in versions && versions[v].theme == theme && versions[v].number == number then Some(v) else None
  }

  ghost function FindLatest(versions: map<nat, Version>, theme: nat): Option<nat> {
    if v :| v in versions && versions[v].theme == theme && versions[v].latest then Some(v) else None
  }

  ghost function FindMarket(markets: map<nat, string>, slug: string): Option<nat> {
    if m :| m in markets && markets[m] == slug then Some(m) else None
  }

  /** `pick` is what `SELECT id ... WHERE store_id AND theme_id` may return: one of the matching rows, if any. */
  ghost predicate Picks(storeThemes: StoreThemes, store: nat, theme: nat, pick: Option<nat>) {
    match pick
    case Some(r) => r in storeThemes && storeThemes[r].store == store && storeThemes[r].theme == theme
    case None => forall r :: r in storeThemes ==> !(storeThemes[r].store == store && storeThemes[r].theme == theme)
  }

  // ---- The scripts -------------------------------------------------------------------------------

  function Deactivated(rows: StoreThemes, store: nat): StoreThemes {
    map r | r in rows :: if rows[r].store == store then rows[r].(active := false) else rows[r]
  }

  /** The marketplace mirror of a store: only the installation of `market`, if any, is active. */
  function Mirrored(installs: Installs, store: nat, market: Option<nat>): Installs {
    map i | i in installs ::
      if installs[i].store == store then installs[i].(active := market == Some(installs[i].market)) else installs[i]
  }

  function OnlyActive(rows: StoreThemes, store: nat, row: nat): StoreThemes {
    map r | r in rows :: if rows[r].store == store then rows[r].(active := r == row) else rows[r]
  }

  /** `activate` for a theme and a store that exist; `pick` is the store's row of the theme. */
  ghost function ActivatedRow(db: Db, theme: nat, store: nat, number: string, pick: Option<nat>): Option<Db>
    requires theme in db.themes && store in db.stores && Picks(db.storeThemes, store, theme, pick)
  {
    var found := FindVersion(db.versions, theme, number);
    var version := if found.Some? then found.value else db.nextId;
    var versions := if found.Some? then db.versions else db.versions[version := Version(theme, number, false)];
    var idle := Deactivated(db.storeThemes, store);
    var installs := Mirrored(db.installs, store, FindMarket(db.markets, db.themes[theme].slug));
    if pick.Some? then
      Some(db.(versions := versions,
               storeThemes := idle[pick.value := idle[pick.value].(version := version, active := true)],
               installs := installs, nextId := db.nextId + 2))
    else if db.stores[store].tenant.None? then None  // store_themes.tenant_id is NOT NULL
    else
      var row := StoreTheme(db.stores[store].tenant.value, store, theme, version, true);
      Some(db.(versions := versions, storeThemes := idle[db.nextId + 1 := row],
               installs := installs, nextId := db.nextId + 2))
  }

  ghost function Activated(db: Db, slug: string, subdomain: string, number: string, pick: Option<nat>): Option<Db>
    requires FindTheme(db.themes, slug).Some? && FindStore(db.stores, subdomain).Some?
             ==> Picks(db.storeThemes, FindStore(db.stores, subdomain).value, FindTheme(db.themes, slug).value, pick)
  {
    var theme, store := FindTheme(db.themes, slug), FindStore(db.stores, subdomain);
    if theme.None? || store.None? then None else ActivatedRow(db, theme.value, store.value, number, pick)
  }

  /** `restore` for a store that exists. */
  ghost function RestoredRow(db: Db, store: nat, row: nat): Db {
    var rows := OnlyActive(db.storeThemes, store, row);
    if row in db.storeThemes && db.storeThemes[row].theme in db.themes then
      var market := FindMarket(db.markets, db.themes[db.storeThemes[row].theme].slug);
      db.(storeThemes := rows, installs := Mirrored(db.installs, store, market))
    else db.(storeThemes := rows)
  }

  ghost predicate HasRow(rows: StoreThemes, store: nat) {
    exists r :: r in rows && rows[r].store == store
  }

  /** A store that the settings migration converts: it has a tenant, no row yet, and names an internal
      theme with a latest version. */
  ghost predicate Eligible(db: Db, store: nat) {
    && store in db.stores && db.stores[store].tenant.Some?
    && !HasRow(db.storeThemes, store)
    && db.stores[store].settings.Some? && db.stores[store].settings.value != ""
    && var theme := FindTheme(db.themes, db.stores[store].settings.value);
       theme.Some? && db.themes[theme.value].kind == Internal && FindLatest(db.versions, theme.value).Some?
  }

  /** What the settings migration makes of a listed store. */
  datatype Outcome = Migrates | SkipExisting | SkipNoTheme | SkipNoMatch

  ghost function OutcomeOf(db: Db, store: nat): Outcome
    requires store in db.stores && db.stores[store].settings.Some?
  {
    if Eligible(db, store) then Migrates
    else if db.stores[store].tenant.Some? && HasRow(db.storeThemes, store) then SkipExisting
    else if db.stores[store].tenant.None? || db.stores[store].settings == Some("") then SkipNoTheme
    else SkipNoMatch
  }

  /** One turn of the migration's loop. */
  ghost function MigratedStore(db: Db, store: nat): Db {
    if !Eligible(db, store) then db
    else
      var theme := FindTheme(db.themes, db.stores[store].settings.value).value;
      var row := StoreTheme(db.stores[store].tenant.value, store, theme, FindLatest(db.versions, theme).value, true);
      db.(storeThemes := db.storeThemes[db.nextId := row], nextId := db.nextId + 1)
  }

  ghost function MigratedAll(db: Db, stores: seq<nat>): Db {
    if stores == [] then db else MigratedStore(MigratedAll(db, stores[..|stores| - 1]), stores[|stores| - 1])
  }

  function Demoted(versions: map<nat, Version>, theme: nat): map<nat, Version> {
    map v | v in versions :: if versions[v].theme == theme then versions[v].(latest := false) else versions[v]
  }

  /** `seed` of the external theme: the theme is created when missing, its versions are demoted, and the
      given version is updated or created as the latest. */
  ghost function Seeded(db: Db, slug: string, number: string): Db {
    var found := FindTheme(db.themes, slug);
    var theme := if found.Some? then found.value else db.nextId;
    var themes := if found.Some? then db.themes else db.themes[theme := Theme(slug, External)];
    var version := FindVersion(db.versions, theme, number);
    var id := if version.Some? then version.value else db.nextId + 1;
    db.(themes := themes, versions := Demoted(db.versions, theme)[id := Version(theme, number, true)],
        nextId := db.nextId + 2)
  }

  /** One turn of `seed_themes`: a missing built-in theme is created with its first, latest version. */
  ghost function SeededBuiltin(db: Db, slug: string): Db {
    if FindTheme(db.themes, slug).Some? then db
    else db.(themes := db.themes[db.nextId := Theme(slug, Internal)],
             versions := db.versions[db.nextId + 1 := Version(db.nextId, "1.0.0", true)], nextId := db.nextId + 2)
  }

  ghost function SeededBuiltins(db: Db, slugs: seq<string>): Db {
    if slugs == [] then db else SeededBuiltin(SeededBuiltins(db, slugs[..|slugs| - 1]), slugs[|slugs| - 1])
  }

  // ---- What holds of the tables ------------------------------------------------------------------

  ghost predicate SameSlug(themes: map<nat, Theme>, t: nat, u: nat) {
    t in themes && u in themes && themes[t].slug == themes[u].slug
  }

  ghost predicate SameMarketSlug(markets: map<nat, string>, m: nat, n: nat) {
    m in markets && n in markets && markets[m] == markets[n]
  }

  ghost predicate SameSubdomain(stores: map<nat, Store>, s: nat, u: nat) {
    s in stores && u in stores && stores[s].subdomain == stores[u].subdomain
  }

  ghost predicate SlugsUnique(themes: map<nat, Theme>) {
    forall t, u :: SameSlug(themes, t, u) ==> t == u
  }

  ghost predicate NamesUnique(db: Db) {
    && SlugsUnique(db.themes)
    && (forall m, n :: SameMarketSlug(db.markets, m, n) ==> m == n)
    && (forall s, u :: SameSubdomain(db.stores, s, u) ==> s == u)
  }

  ghost predicate SameNumber(versions: map<nat, Version>, v: nat, w: nat) {
    v in versions && w in versions && versions[v].theme == versions[w].theme && versions[v].number == versions[w].number
  }

  ghost predicate BothLatest(versions: map<nat, Version>, v: nat, w: nat) {
    && v in versions && w in versions && versions[v].theme == versions[w].theme
    && versions[v].latest && versions[w].latest
  }

  /** `uq_theme_version`, and at most one latest version of each theme. */
  ghost predicate VersionsUnique(versions: map<nat, Version>) {
    && (forall v, w :: SameNumber(versions, v, w) ==> v == w)
    && (forall v, w :: BothLatest(versions, v, w) ==> v == w)
  }

  ghost predicate BothActive(rows: StoreThemes, r: nat, q: nat) {
    r in rows && q in rows && rows[r].store == rows[q].store && rows[r].active && rows[q].active
  }

  /** `ix_store_themes_active`: at most one active row per store. */
  ghost predicate OneActive(rows: StoreThemes) {
    forall r, q :: BothActive(rows, r, q) ==> r == q
  }

  ghost predicate VersionsRefer(db: Db) {
    forall v :: v in db.versions ==> db.versions[v].theme in db.themes
  }

  /** A row's version belongs to its theme, and its tenant is its store's. */
  ghost predicate RowRefers(db: Db, row: StoreTheme) {
    && row.theme in db.themes && row.version in db.versions && row.store in db.stores
    && db.versions[row.version].theme == row.theme
    && db.stores[row.store].tenant == Some(row.tenant)
  }

  ghost predicate RowsRefer(db: Db) {
    forall r :: r in db.storeThemes ==> RowRefers(db, db.storeThemes[r])
  }

  ghost predicate InstallsRefer(db: Db) {
    forall i :: i in db.installs ==> db.installs[i].market in db.markets
  }

  ghost predicate IdsGivenOut(db: Db) {
    && (forall t :: t in db.themes ==> t < db.nextId)
    && (forall v :: v in db.versions ==> v < db.nextId)
    && (forall r :: r in db.storeThemes ==> r < db.nextId)
  }

  /** Row `r` is active in the store and its theme has the slug. */
  ghost predicate ActiveAs(db: Db, r: nat, store: nat, slug: string) {
    && r in db.storeThemes && db.storeThemes[r].store == store && db.storeThemes[r].active
    && db.storeThemes[r].theme in db.themes && db.themes[db.storeThemes[r].theme].slug == slug
  }

  ghost predicate ActiveSlug(db: Db, store: nat, slug: string) {
    exists r :: ActiveAs(db, r, store, slug)
  }

  ghost predicate InstallAgrees(db: Db, i: nat) {
    i in db.installs && db.installs[i].active && db.installs[i].market in db.markets
    ==> ActiveSlug(db, db.installs[i].store, db.markets[db.installs[i].market])
  }

  /** An active installation of a store names the slug of the store's active theme. */
  ghost predicate MirrorAgrees(db: Db) {
    forall i :: InstallAgrees(db, i)
  }

  /** Everything but the mirror. */
  ghost predicate Sound(db: Db) {
    && NamesUnique(db) && VersionsUnique(db.versions) && OneActive(db.storeThemes)
    && VersionsRefer(db) && RowsRefer(db) && InstallsRefer(db) && IdsGivenOut(db)
  }

  ghost predicate Consistent(db: Db) {
    Sound(db) && MirrorAgrees(db)
  }

  // ---- One table at a time -----------------------------------------------------------------------

  lemma DeactivatedKeepsOneActive(rows: StoreThemes, store: nat)
    requires OneActive(rows)
    ensures OneActive(Deactivated(rows, store))
  {
    var after := Deactivated(rows, store);
    forall r, q | BothActive(after, r, q) ensures r == q {
      assert BothActive(rows, r, q);
    }
  }

  /** A row may become active once the other rows of its store are not. */
  lemma ActiveRowKeepsOneActive(rows: StoreThemes, id: nat, row: StoreTheme)
    requires OneActive(rows)
    requires forall r :: r in rows && r != id && rows[r].store == row.store ==> !rows[r].active
    ensures OneActive(rows[id := row])
  {
    var after := rows[id := row];
    forall r, q | BothActive(after, r, q) ensures r == q {
      if r != id && q != id {
        assert BothActive(rows, r, q);
      }
    }
  }

  lemma OnlyActiveKeepsOneActive(rows: StoreThemes, store: nat, row: nat)
    requires OneActive(rows)
    ensures OneActive(OnlyActive(rows, store, row))
  {
    var after := OnlyActive(rows, store, row);
    forall r, q | BothActive(after, r, q) ensures r == q {
      if after[r].store != store {
        assert BothActive(rows, r, q);
      }
    }
  }

  lemma NewVersionKeepsUnique(versions: map<nat, Version>, id: nat, v: Version)
    requires VersionsUnique(versions) && id !in versions
    requires forall w :: w in versions && versions[w].theme == v.theme ==> versions[w].number != v.number
    requires v.latest ==> forall w :: w in versions && versions[w].theme == v.theme ==> !versions[w].latest
    ensures VersionsUnique(versions[id := v])
  {
    var after := versions[id := v];
    forall x, y | SameNumber(after, x, y) ensures x == y {
      if x != id && y != id {
        assert SameNumber(versions, x, y);
      }
    }
    forall x, y | BothLatest(after, x, y) ensures x == y {
      if x != id && y != id {
        assert BothLatest(versions, x, y);
      }
    }
  }

  lemma DemotedKeepsUnique(versions: map<nat, Version>, theme: nat)
    requires VersionsUnique(versions)
    ensures VersionsUnique(Demoted(versions, theme))
  {
    var after := Demoted(versions, theme);
    forall x, y | SameNumber(after, x, y) ensures x == y {
      assert SameNumber(versions, x, y);
    }
    forall x, y | BothLatest(after, x, y) ensures x == y {
      assert BothLatest(versions, x, y);
    }
  }

  /** An existing version may become the latest once its theme has none. */
  lemma PromotedKeepsUnique(versions: map<nat, Version>, id: nat)
    requires VersionsUnique(versions) && id in versions
    requires forall w :: w in versions && versions[w].theme == versions[id].theme ==> !versions[w].latest
    ensures VersionsUnique(versions[id := versions[id].(latest := true)])
  {
    var after := versions[id := versions[id].(latest := true)];
    forall x, y | SameNumber(after, x, y) ensures x == y {
      assert SameNumber(versions, x, y);
    }
    forall x, y | BothLatest(after, x, y) ensures x == y {
      if x != id && y != id {
        assert BothLatest(versions, x, y);
      }
    }
  }

  lemma NewThemeKeepsUnique(themes: map<nat, Theme>, id: nat, theme: Theme)
    requires SlugsUnique(themes) && forall t :: t in themes ==> themes[t].slug != theme.slug
    ensures SlugsUnique(themes[id := theme])
  {
    var after := themes[id := theme];
    forall t, u | SameSlug(after, t, u) ensures t == u {
      if t != id && u != id {
        assert SameSlug(themes, t, u);
      }
    }
  }

  /** Themes and stores stay, and versions stay with their themes. */
  ghost predicate Grown(db: Db, e: Db) {
    && e.stores == db.stores && e.markets == db.markets
    && (forall t :: t in db.themes ==> t in e.themes && e.themes[t] == db.themes[t])
    && (forall v :: v in db.versions ==> v in e.versions && e.versions[v].theme == db.versions[v].theme)
  }

  lemma RefersStays(db: Db, e: Db, row: StoreTheme)
    requires Grown(db, e) && RowRefers(db, row)
    ensures RowRefers(e, row)
  {
  }

  lemma ActiveSlugStays(db: Db, e: Db, store: nat, slug: string)
    requires Grown(db, e) && ActiveSlug(db, store, slug)
    requires forall r :: r in db.storeThemes && db.storeThemes[r].store == store
                         ==> r in e.storeThemes && e.storeThemes[r] == db.storeThemes[r]
    ensures ActiveSlug(e, store, slug)
  {
    var r :| ActiveAs(db, r, store, slug);
    assert ActiveAs(e, r, store, slug);
  }

  /** The mirror holds after one store's pointers have moved together. */
  lemma MirroredAgrees(db: Db, e: Db, store: nat, slug: string)
    requires MirrorAgrees(db) && Grown(db, e) && ActiveSlug(e, store, slug)
    requires e.installs == Mirrored(db.installs, store, FindMarket(db.markets, slug))
    requires forall r :: r in db.storeThemes && db.storeThemes[r].store != store
                         ==> r in e.storeThemes && e.storeThemes[r] == db.storeThemes[r]
    ensures MirrorAgrees(e)
  {
    forall i ensures InstallAgrees(e, i) {
      assert InstallAgrees(db, i);
      if i in e.installs && e.installs[i].active && e.installs[i].market in e.markets && e.installs[i].store != store {
        ActiveSlugStays(db, e, e.installs[i].store, e.markets[e.installs[i].market]);
      }
    }
  }

  /** The mirror holds after rows have only been added. */
  lemma MirrorOfMoreRows(db: Db, e: Db)
    requires MirrorAgrees(db) && Grown(db, e) && e.installs == db.installs
    requires forall r :: r in db.storeThemes ==> r in e.storeThemes && e.storeThemes[r] == db.storeThemes[r]
    ensures MirrorAgrees(e)
  {
    forall i ensures InstallAgrees(e, i) {
      assert InstallAgrees(db, i);
      if i in e.installs && e.installs[i].active && e.installs[i].market in e.markets {
        ActiveSlugStays(db, e, e.installs[i].store, e.markets[e.installs[i].market]);
      }
    }
  }

  // ---- Each script keeps it ----------------------------------------------------------------------

  /** After `activate` exactly the theme's row is active in the store, and exactly the installations of
      the theme's marketplace entry; other stores' rows are as they were. */
  lemma ActivatedPoints(db: Db, theme: nat, store: nat, number: string, pick: Option<nat>)
    requires Sound(db) && theme in db.themes && store in db.stores && Picks(db.storeThemes, store, theme, pick)
    requires ActivatedRow(db, theme, store, number, pick).Some?
    ensures var e := ActivatedRow(db, theme, store, number, pick).value;
            var row := if pick.Some? then pick.value else db.nextId + 1;
            && row in e.storeThemes && e.storeThemes[row].theme == theme && e.storeThemes[row].store == store
            && (forall r :: r in e.storeThemes && e.storeThemes[r].store == store
                            ==> (e.storeThemes[r].active <==> r == row))
            && (forall r :: r in db.storeThemes && db.storeThemes[r].store != store
                            ==> r in e.storeThemes && e.storeThemes[r] == db.storeThemes[r])
            && (forall i :: i in e.installs && e.installs[i].store == store
                            ==> (e.installs[i].active <==>
                                 Some(e.installs[i].market) == FindMarket(db.markets, db.themes[theme].slug)))
            && e.storeThemes[row].version in e.versions
            && e.versions[e.storeThemes[row].version].theme == theme
            && e.versions[e.storeThemes[row].version].number == number
  {
  }

  lemma ActivatedVersions(db: Db, theme: nat, store: nat, number: string, pick: Option<nat>)
    requires Sound(db) && theme in db.themes && store in db.stores && Picks(db.storeThemes, store, theme, pick)
    requires ActivatedRow(db, theme, store, number, pick).Some?
    ensures var e := ActivatedRow(db, theme, store, number, pick).value;
            VersionsUnique(e.versions) && VersionsRefer(e) && Grown(db, e)
  {
    if FindVersion(db.versions, theme, number).None? {
      NewVersionKeepsUnique(db.versions, db.nextId, Version(theme, number, false));
    }
  }

  lemma ActivatedRows(db: Db, theme: nat, store: nat, number: string, pick: Option<nat>)
    requires Sound(db) && theme in db.themes && store in db.stores && Picks(db.storeThemes, store, theme, pick)
    requires ActivatedRow(db, theme, store, number, pick).Some?
    ensures var e := ActivatedRow(db, theme, store, number, pick).value;
            OneActive(e.storeThemes) && RowsRefer(e)
  {
    var e := ActivatedRow(db, theme, store, number, pick).value;
    ActivatedPoints(db, theme, store, number, pick);
    ActivatedVersions(db, theme, store, number, pick);
    var row := if pick.Some? then pick.value else db.nextId + 1;
    DeactivatedKeepsOneActive(db.storeThemes, store);
    ActiveRowKeepsOneActive(Deactivated(db.storeThemes, store), row, e.storeThemes[row]);
    forall r | r in e.storeThemes ensures RowRefers(e, e.storeThemes[r]) {
      if r in db.storeThemes {
        RefersStays(db, e, db.storeThemes[r]);
      }
    }
  }

  lemma ActivateKeepsConsistent(db: Db, theme: nat, store: nat, number: string, pick: Option<nat>)
    requires Consistent(db) && theme in db.themes && store in db.stores && Picks(db.storeThemes, store, theme, pick)
    requires ActivatedRow(db, theme, store, number, pick).Some?
    ensures Consistent(ActivatedRow(db, theme, store, number, pick).value)
  {
    ActivatedVersions(db, theme, store, number, pick);
    ActivatedRows(db, theme, store, number, pick);
    ActivateKeepsMirror(db, theme, store, number, pick);
  }

  lemma ActivateKeepsMirror(db: Db, theme: nat, store: nat, number: string, pick: Option<nat>)
    requires Consistent(db) && theme in db.themes && store in db.stores && Picks(db.storeThemes, store, theme, pick)
    requires ActivatedRow(db, theme, store, number, pick).Some?
    ensures MirrorAgrees(ActivatedRow(db, theme, store, number, pick).value)
  {
    var e := ActivatedRow(db, theme, store, number, pick).value;
    ActivatedPoints(db, theme, store, number, pick);
    ActivatedVersions(db, theme, store, number, pick);
    ActivatedRows(db, theme, store, number, pick);
    var row := if pick.Some? then pick.value else db.nextId + 1;
    assert ActiveAs(e, row, store, db.themes[theme].slug);
    MirroredAgrees(db, e, store, db.themes[theme].slug);
  }

  /** What `restore` needs: the id is a row of that very store. */
  ghost predicate RowOfStore(db: Db, store: nat, row: nat) {
    row in db.storeThemes && db.storeThemes[row].store == store
  }

  lemma RestoreKeepsSound(db: Db, store: nat, row: nat)
    requires Sound(db)
    ensures Sound(RestoredRow(db, store, row)) && Grown(db, RestoredRow(db, store, row))
  {
    var flipped := db.(storeThemes := OnlyActive(db.storeThemes, store, row));
    OnlyActiveKeepsOneActive(db.storeThemes, store, row);
    OnlyActiveRefers(db, flipped, store, row);
    PointersKeepSound(db, flipped.storeThemes);
    if row in db.storeThemes && db.storeThemes[row].theme in db.themes {
      MirroringKeepsSound(flipped, store, FindMarket(db.markets, db.themes[db.storeThemes[row].theme].slug));
    }
  }

  /** Soundness only depends on the pointers through `OneActive`. */
  lemma PointersKeepSound(db: Db, rows: StoreThemes)
    requires Sound(db) && OneActive(rows) && rows.Keys == db.storeThemes.Keys && RowsRefer(db.(storeThemes := rows))
    ensures Sound(db.(storeThemes := rows))
  {
    assert forall r :: r in rows ==> r in db.storeThemes;
  }

  lemma MirroringKeepsSound(db: Db, store: nat, market: Option<nat>)
    requires Sound(db)
    ensures Sound(db.(installs := Mirrored(db.installs, store, market)))
  {
    var e := db.(installs := Mirrored(db.installs, store, market));
    forall r | r in e.storeThemes ensures RowRefers(e, e.storeThemes[r]) {
      assert RowRefers(db, db.storeThemes[r]);
    }
  }

  lemma OnlyActiveRefers(db: Db, e: Db, store: nat, row: nat)
    requires Grown(db, e) && RowsRefer(db) && e.storeThemes == OnlyActive(db.storeThemes, store, row)
    ensures RowsRefer(e)
  {
    forall r | r in e.storeThemes ensures RowRefers(e, e.storeThemes[r]) {
      RefersStays(db, e, db.storeThemes[r]);
    }
  }

  lemma RestoreKeepsConsistent(db: Db, store: nat, row: nat)
    requires Consistent(db) && RowOfStore(db, store, row)
    ensures Consistent(RestoredRow(db, store, row))
  {
    var e := RestoredRow(db, store, row);
    RestoreKeepsSound(db, store, row);
    assert RowRefers(db, db.storeThemes[row]);
    var slug := db.themes[db.storeThemes[row].theme].slug;
    assert ActiveAs(e, row, store, slug);
    MirroredAgrees(db, e, store, slug);
  }

  /** The installation would be active after restoring the row. */
  ghost predicate StaysActive(db: Db, store: nat, row: nat, i: nat) {
    && i in db.installs && db.installs[i].store == store
    && if row in db.storeThemes && db.storeThemes[row].theme in db.themes
       then FindMarket(db.markets, db.themes[db.storeThemes[row].theme].slug) == Some(db.installs[i].market)
       else db.installs[i].active
  }

  /** `restore` does not check its id. The mirror survives exactly when the id is a row of that store, or
      when no installation of the store is left active. */
  lemma RestoreKeepsMirrorExactly(db: Db, store: nat, row: nat)
    requires Consistent(db)
    ensures MirrorAgrees(RestoredRow(db, store, row))
            <==> RowOfStore(db, store, row) || forall i :: !StaysActive(db, store, row, i)
  {
    if RowOfStore(db, store, row) {
      RestoreKeepsConsistent(db, store, row);
    } else if i :| StaysActive(db, store, row, i) {
      var e := RestoredRow(db, store, row);
      NoActiveRowLeft(db, store, row, e.markets[e.installs[i].market]);
      assert !InstallAgrees(e, i);
    } else {
      RestoreOfNothing(db, store, row);
    }
  }

  /** `restore` with an id that is nobody's row: the store's active row goes, its active installation stays. */
  lemma RestoreOfUnknownRowBreaksMirror()
    ensures var row := StoreTheme(1, 1, 1, 1, true);
            var db := Db(map[1 := Theme("numu", External)], map[1 := Version(1, "1.0.0", true)],
                         map[1 := Store("shop", Some(1), None)], map[1 := row],
                         map[1 := "numu"], map[1 := Install(1, 1, true)], 10);
            Consistent(db) && !RowOfStore(db, 1, 7) && !MirrorAgrees(RestoredRow(db, 1, 7))
  {
    var row := StoreTheme(1, 1, 1, 1, true);
    var db := Db(map[1 := Theme("numu", External)], map[1 := Version(1, "1.0.0", true)],
                 map[1 := Store("shop", Some(1), None)], map[1 := row],
                 map[1 := "numu"], map[1 := Install(1, 1, true)], 10);
    assert ActiveAs(db, 1, 1, "numu");
    assert MirrorAgrees(db);
    assert StaysActive(db, 1, 7, 1);
    RestoreKeepsMirrorExactly(db, 1, 7);
  }

  lemma NoActiveRowLeft(db: Db, store: nat, row: nat, slug: string)
    requires !RowOfStore(db, store, row)
    ensures !ActiveSlug(RestoredRow(db, store, row), store, slug)
  {
    var e := RestoredRow(db, store, row);
    forall r ensures !ActiveAs(e, r, store, slug) {
      assert r in e.storeThemes && e.storeThemes[r].store == store ==> e.storeThemes[r].active == (r == row);
    }
  }

  lemma RestoreOfNothing(db: Db, store: nat, row: nat)
    requires Consistent(db) && forall i :: !StaysActive(db, store, row, i)
    ensures MirrorAgrees(RestoredRow(db, store, row))
  {
    var e := RestoredRow(db, store, row);
    RestoreKeepsSound(db, store, row);
    forall i ensures InstallAgrees(e, i) {
      assert InstallAgrees(db, i) && !StaysActive(db, store, row, i);
      if i in e.installs && e.installs[i].active && e.installs[i].market in e.markets {
        assert e.installs[i].store != store;
        ActiveSlugStays(db, e, e.installs[i].store, e.markets[e.installs[i].market]);
      }
    }
  }

  lemma MigratedStoreKeepsConsistent(db: Db, store: nat)
    requires Consistent(db)
    ensures Consistent(MigratedStore(db, store))
  {
    var e := MigratedStore(db, store);
    if Eligible(db, store) {
      ActiveRowKeepsOneActive(db.storeThemes, db.nextId, e.storeThemes[db.nextId]);
      forall r | r in e.storeThemes ensures RowRefers(e, e.storeThemes[r]) {
        if r in db.storeThemes {
          RefersStays(db, e, db.storeThemes[r]);
        }
      }
      MirrorOfMoreRows(db, e);
    }
  }

  /** The migration inserts active rows. That keeps one active row per store exactly when the store has
      none, which is why it must skip stores that already have a row. */
  lemma InsertingActiveExactly(rows: StoreThemes, id: nat, row: StoreTheme)
    requires OneActive(rows) && id !in rows && row.active
    ensures OneActive(rows[id := row]) <==> forall r :: r in rows && rows[r].store == row.store ==> !rows[r].active
  {
    var more := rows[id := row];
    if r :| r in rows && rows[r].store == row.store && rows[r].active {
      assert BothActive(more, r, id);
    } else {
      ActiveRowKeepsOneActive(rows, id, row);
    }
  }

  lemma {:induction false} MigrateKeepsConsistent(db: Db, stores: seq<nat>)
    requires Consistent(db)
    ensures Consistent(MigratedAll(db, stores))
  {
    if stores != [] {
      MigrateKeepsConsistent(db, stores[..|stores| - 1]);
      MigratedStoreKeepsConsistent(MigratedAll(db, stores[..|stores| - 1]), stores[|stores| - 1]);
    }
  }

  /** The theme that `seed` works on, before and after. */
  ghost function SeedTheme(db: Db, slug: string): nat {
    if FindTheme(db.themes, slug).Some? then FindTheme(db.themes, slug).value else db.nextId
  }

  ghost function SeedVersion(db: Db, slug: string, number: string): nat {
    var found := FindVersion(db.versions, SeedTheme(db, slug), number);
    if found.Some? then found.value else db.nextId + 1
  }

  lemma SeededThemes(db: Db, slug: string, number: string)
    requires Sound(db)
    ensures var e := Seeded(db, slug, number);
            && SlugsUnique(e.themes) && Grown(db, e)
            && SeedTheme(db, slug) in e.themes && e.themes[SeedTheme(db, slug)].slug == slug
  {
    if FindTheme(db.themes, slug).None? {
      NewThemeKeepsUnique(db.themes, db.nextId, Theme(slug, External));
    }
  }

  lemma SeededVersions(db: Db, slug: string, number: string)
    requires Sound(db)
    ensures var e := Seeded(db, slug, number);
            && VersionsUnique(e.versions) && VersionsRefer(e)
            && SeedVersion(db, slug, number) in e.versions
            && e.versions[SeedVersion(db, slug, number)] == Version(SeedTheme(db, slug), number, true)
  {
    var theme := SeedTheme(db, slug);
    var demoted := Demoted(db.versions, theme);
    DemotedKeepsUnique(db.versions, theme);
    if FindVersion(db.versions, theme, number).Some? {
      PromotedKeepsUnique(demoted, FindVersion(db.versions, theme, number).value);
    } else {
      NewVersionKeepsUnique(demoted, db.nextId + 1, Version(theme, number, true));
    }
    SeededThemes(db, slug, number);
  }

  lemma SeedKeepsConsistent(db: Db, slug: string, number: string)
    requires Consistent(db)
    ensures Consistent(Seeded(db, slug, number))
  {
    var e := Seeded(db, slug, number);
    SeededThemes(db, slug, number);
    SeededVersions(db, slug, number);
    forall r | r in e.storeThemes ensures RowRefers(e, e.storeThemes[r]) {
      RefersStays(db, e, db.storeThemes[r]);
    }
    MirrorOfMoreRows(db, e);
  }

  /** After `seed` the theme has exactly one latest version, the one just seeded. */
  lemma SeedLeavesOneLatest(db: Db, slug: string, number: string)
    requires Sound(db)
    ensures var e, theme := Seeded(db, slug, number), SeedTheme(db, slug);
            && FindTheme(e.themes, slug) == Some(theme)
            && FindLatest(e.versions, theme) == Some(SeedVersion(db, slug, number))
            && e.versions[SeedVersion(db, slug, number)].number == number
            && forall v :: v in e.versions && e.versions[v].theme == theme
                           ==> (e.versions[v].latest <==> v == SeedVersion(db, slug, number))
  {
    var e, theme, version := Seeded(db, slug, number), SeedTheme(db, slug), SeedVersion(db, slug, number);
    SeededThemes(db, slug, number);
    SeededVersions(db, slug, number);
    assert SameSlug(e.themes, FindTheme(e.themes, slug).value, theme);
    assert BothLatest(e.versions, FindLatest(e.versions, theme).value, version);
    forall v | v in e.versions && e.versions[v].theme == theme && e.versions[v].latest ensures v == version {
      assert BothLatest(e.versions, v, version);
    }
  }

  lemma SeededBuiltinKeepsConsistent(db: Db, slug: string)
    requires Consistent(db)
    ensures Consistent(SeededBuiltin(db, slug))
  {
    var e := SeededBuiltin(db, slug);
    if FindTheme(db.themes, slug).None? {
      NewThemeKeepsUnique(db.themes, db.nextId, Theme(slug, Internal));
      NewVersionKeepsUnique(db.versions, db.nextId + 1, Version(db.nextId, "1.0.0", true));
      forall r | r in e.storeThemes ensures RowRefers(e, e.storeThemes[r]) {
        RefersStays(db, e, db.storeThemes[r]);
      }
      MirrorOfMoreRows(db, e);
    }
  }

  lemma {:induction false} SeedBuiltinsKeepConsistent(db: Db, slugs: seq<string>)
    requires Consistent(db)
    ensures Consistent(SeededBuiltins(db, slugs))
  {
    if slugs != [] {
      SeedBuiltinsKeepConsistent(db, slugs[..|slugs| - 1]);
      SeededBuiltinKeepsConsistent(SeededBuiltins(db, slugs[..|slugs| - 1]), slugs[|slugs| - 1]);
    }
  }

  // ---- Every run ---------------------------------------------------------------------------------

  /** A whole run of one script. */
  datatype Script =
    | Activate(slug: string, subdomain: string, number: string, pick: Option<nat>)
    | Restore(subdomain: string, row: nat)
    | MigrateSettings(stores: seq<nat>)
    | SeedExternal(slug: string, number: string)
    | SeedBuiltins(slugs: seq<string>)

  /** The run can happen in this state: a pick is a real query result, and a restore names a row of its store. */
  ghost predicate CanRun(db: Db, s: Script) {
    match s
    case Activate(slug, subdomain, _, pick) =>
      FindTheme(db.themes, slug).Some? && FindStore(db.stores, subdomain).Some?
      ==> Picks(db.storeThemes, FindStore(db.stores, subdomain).value, FindTheme(db.themes, slug).value, pick)
    case Restore(subdomain, row) =>
      FindStore(db.stores, subdomain).Some? ==> RowOfStore(db, FindStore(db.stores, subdomain).value, row)
    case _ => true
  }

  /** A script that exits early or fails leaves the tables alone. */
  ghost function RunScript(db: Db, s: Script): Db
    requires CanRun(db, s)
  {
    match s
    case Activate(slug, subdomain, number, pick) =>
      var e := Activated(db, slug, subdomain, number, pick);
      if e.Some? then e.value else db
    case Restore(subdomain, row) =>
      if FindStore(db.stores, subdomain).Some? then RestoredRow(db, FindStore(db.stores, subdomain).value, row) else db
    case MigrateSettings(stores) => MigratedAll(db, stores)
    case SeedExternal(slug, number) => Seeded(db, slug, number)
    case SeedBuiltins(slugs) => SeededBuiltins(db, slugs)
  }

  ghost predicate CanRunAll(db: Db, scripts: seq<Script>)
    decreases |scripts|
  {
    scripts == [] || (CanRun(db, scripts[0]) && CanRunAll(RunScript(db, scripts[0]), scripts[1..]))
  }

  ghost function RunAll(db: Db, scripts: seq<Script>): Db
    requires CanRunAll(db, scripts)
    decreases |scripts|
  {
    if scripts == [] then db else RunAll(RunScript(db, scripts[0]), scripts[1..])
  }

  lemma RunScriptKeepsConsistent(db: Db, s: Script)
    requires Consistent(db) && CanRun(db, s)
    ensures Consistent(RunScript(db, s))
  {
    match s {
      case Activate(slug, subdomain, number, pick) =>
        if Activated(db, slug, subdomain, number, pick).Some? {
          var theme, store := FindTheme(db.themes, slug).value, FindStore(db.stores, subdomain).value;
          ActivateKeepsConsistent(db, theme, store, number, pick);
        }
      case Restore(subdomain, row) =>
        if FindStore(db.stores, subdomain).Some? {
          RestoreKeepsConsistent(db, FindStore(db.stores, subdomain).value, row);
        }
      case MigrateSettings(stores) => MigrateKeepsConsistent(db, stores);
      case SeedExternal(slug, number) => SeedKeepsConsistent(db, slug, number);
      case SeedBuiltins(slugs) => SeedBuiltinsKeepConsistent(db, slugs);
    }
  }

  /** Over every sequence of runs of the scripts: one active row per store, the marketplace mirror agrees
      with it, at most one latest version per theme, and every row refers to a version of its theme and
      carries its store's tenant. */
  lemma {:induction false} EveryRunKeepsConsistent(db: Db, scripts: seq<Script>)
    requires Consistent(db) && CanRunAll(db, scripts)
    ensures Consistent(RunAll(db, scripts))
    decreases |scripts|
  {
    if scripts != [] {
      RunScriptKeepsConsistent(db, scripts[0]);
      EveryRunKeepsConsistent(RunScript(db, scripts[0]), scripts[1..]);
    }
  }

  // ---- Undoing -----------------------------------------------------------------------------------

  /** The store's installations are active exactly when they name the slug of its active theme. */
  ghost predicate MirrorExact(db: Db, store: nat) {
    forall i :: i in db.installs && db.installs[i].store == store
                ==> db.installs[i].market in db.markets
                    && (db.installs[i].active <==> ActiveSlug(db, store, db.markets[db.installs[i].market]))
  }

  /** The half of `RestoreUndoesActivate` about `store_themes`; it needs no mirror. */
  lemma RestoreUndoesRows(db: Db, theme: nat, store: nat, number: string, pick: Option<nat>, previous: nat)
    requires Consistent(db)
    requires theme in db.themes && store in db.stores && Picks(db.storeThemes, store, theme, pick)
    requires ActivatedRow(db, theme, store, number, pick).Some?
    requires RowOfStore(db, store, previous) && db.storeThemes[previous].active
    ensures var e := RestoredRow(ActivatedRow(db, theme, store, number, pick).value, store, previous);
            && (forall r :: r in db.storeThemes
                            ==> r in e.storeThemes && e.storeThemes[r].active == db.storeThemes[r].active)
            && (forall r :: r in e.storeThemes && r !in db.storeThemes ==> !e.storeThemes[r].active)
  {
    ActivatedPoints(db, theme, store, number, pick);
    OnlyOneWasActive(db, store, previous);
    ActivateKeepsIdentity(db, theme, store, number, pick);
  }

  /** Restoring the row that was active before an `activate` undoes it on the active pointers of both
      tables; a row that `activate` added stays, inactive. */
  lemma RestoreUndoesActivate(db: Db, theme: nat, store: nat, number: string, pick: Option<nat>, previous: nat)
    requires Consistent(db) && MirrorExact(db, store)
    requires theme in db.themes && store in db.stores && Picks(db.storeThemes, store, theme, pick)
    requires ActivatedRow(db, theme, store, number, pick).Some?
    requires RowOfStore(db, store, previous) && db.storeThemes[previous].active
    ensures var e := RestoredRow(ActivatedRow(db, theme, store, number, pick).value, store, previous);
            && e.installs == db.installs
            && (forall r :: r in db.storeThemes
                            ==> r in e.storeThemes && e.storeThemes[r].active == db.storeThemes[r].active)
            && (forall r :: r in e.storeThemes && r !in db.storeThemes ==> !e.storeThemes[r].active)
  {
    var a := ActivatedRow(db, theme, store, number, pick).value;
    RestoreUndoesRows(db, theme, store, number, pick, previous);
    assert RowRefers(db, db.storeThemes[previous]);
    ActivateKeepsIdentity(db, theme, store, number, pick);
    var slug := db.themes[db.storeThemes[previous].theme].slug;
    InstallsWere(db, store, previous, slug);
    assert Mirrored(a.installs, store, FindMarket(db.markets, slug))
        == Mirrored(db.installs, store, FindMarket(db.markets, slug));
  }

  lemma OnlyOneWasActive(db: Db, store: nat, previous: nat)
    requires OneActive(db.storeThemes) && RowOfStore(db, store, previous) && db.storeThemes[previous].active
    ensures forall r :: r in db.storeThemes && db.storeThemes[r].store == store
                        ==> (db.storeThemes[r].active <==> r == previous)
  {
    forall r | r in db.storeThemes && db.storeThemes[r].store == store
      ensures db.storeThemes[r].active <==> r == previous
    {
      assert db.storeThemes[r].active ==> BothActive(db.storeThemes, r, previous);
    }
  }

  /** `activate` moves no row to another store or theme. */
  lemma ActivateKeepsIdentity(db: Db, theme: nat, store: nat, number: string, pick: Option<nat>)
    requires Sound(db) && theme in db.themes && store in db.stores && Picks(db.storeThemes, store, theme, pick)
    requires ActivatedRow(db, theme, store, number, pick).Some?
    ensures var a := ActivatedRow(db, theme, store, number, pick).value;
            && a.themes == db.themes && a.markets == db.markets
            && a.installs == Mirrored(db.installs, store, FindMarket(db.markets, db.themes[theme].slug))
            && (forall r :: r in db.storeThemes ==> && r in a.storeThemes
                                                    && a.storeThemes[r].store == db.storeThemes[r].store
                                                    && a.storeThemes[r].theme == db.storeThemes[r].theme)
            && (forall r :: r in a.storeThemes && r !in db.storeThemes ==> a.storeThemes[r].store == store)
  {
  }

  lemma InstallsWere(db: Db, store: nat, previous: nat, slug: string)
    requires Sound(db) && MirrorExact(db, store)
    requires RowOfStore(db, store, previous) && db.storeThemes[previous].active
    requires db.storeThemes[previous].theme in db.themes && db.themes[db.storeThemes[previous].theme].slug == slug
    ensures Mirrored(db.installs, store, FindMarket(db.markets, slug)) == db.installs
  {
    forall i | i in db.installs && db.installs[i].store == store
      ensures db.installs[i].active == (FindMarket(db.markets, slug) == Some(db.installs[i].market))
    {
      ActiveSlugIs(db, store, previous, db.markets[db.installs[i].market]);
      MarketIs(db, slug, db.installs[i].market);
    }
  }

  lemma MarketIs(db: Db, slug: string, market: nat)
    requires NamesUnique(db) && market in db.markets
    ensures FindMarket(db.markets, slug) == Some(market) <==> db.markets[market] == slug
  {
    if db.markets[market] == slug {
      assert SameMarketSlug(db.markets, FindMarket(db.markets, slug).value, market);
    }
  }

  lemma ActiveSlugIs(db: Db, store: nat, row: nat, slug: string)
    requires Sound(db) && RowOfStore(db, store, row) && db.storeThemes[row].active
    ensures db.storeThemes[row].theme in db.themes
    ensures ActiveSlug(db, store, slug) <==> db.themes[db.storeThemes[row].theme].slug == slug
  {
    assert RowRefers(db, db.storeThemes[row]);
    if r :| ActiveAs(db, r, store, slug) {
      assert BothActive(db.storeThemes, r, row);
    }
    assert db.themes[db.storeThemes[row].theme].slug == slug ==> ActiveAs(db, row, store, slug);
  }
}
