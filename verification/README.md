# NUMU API: verified models of the operations scripts

A Dafny project about seven pieces of the NUMU API repository that change or guard production data: the
online-migration checker, the legacy shipping-zone migration, the row-level-security bundle, the theme
activation scripts, the two backfills, the canary gate and the PDF line breaker. Each piece is modelled with
the branches, constants and error paths of its code, and the properties it is meant to have are proved for
all inputs, all runs or all reachable states. `dafny verify dfyconfig.toml` checks the whole project.

| file | models |
|---|---|
| `PythonAst.dfy`, `MigrationChecker.dfy` | the syntax-tree visitor of the migration checker and its verdict |
| `SchemaCompat.dfy`, `MigrationSoundness.dfy` | schemas, the statements of a running API, executions of an `upgrade`, soundness of the checker |
| `ShippingPlan.dfy`, `ShippingMigration.dfy` | one store's zones; `upgrade` and `downgrade` |
| `ShippingTokens.dfy`, `ShippingMeaning.dfy` | tokens, rates and first-wins assignment stated without their steps; what the migrated database says |
| `RowSecurity.dfy`, `PolicyCatalog.dfy` | session variables, policies, statements, clients and pools; the catalog migration |
| `ThemeTables.dfy`, `ThemeScripts.dfy`, `ThemeMeaning.dfy` | the shared theme tables and their invariant; the four scripts as they run; what they leave, row by row |
| `TrustBackfill.dfy`, `TrialExpiry.dfy` | keyset replay into the Trust Network; plan/apply of trial expiries |
| `CanaryGate.dfy`, `CanarySmoke.dfy` | percentile and verdict; the temporary order under request failures |
| `WrapText.dfy` | greedy line breaking and its optimality |
| `Prelude.dfy`, `PyText.dfy` | options, sequences, Python string operations |

Code that updates state step by step is a class or a method with loops, proved equal to a function of the old
state; the properties are lemmas about that function. Pure code is functions and lemmas.

## What the proofs found

* `check` is sound only for calls whose dangerous parts are literals in the places it reads.
  `AcceptedCallSafeExactly` gives the exact condition for the migration vocabulary. A lemma `...IsMissed` shows
  each of these accepted: an operation imported and called by its bare name, a falsy `nullable` other than
  `False`, a column built by a helper or given by keyword, a default that is NULL, a primary key, a column with a
  check constraint, SQL built by any call other than `text` (it is judged by that call's first argument), and
  SQL given by keyword. Conversely every rejection is earned, except for renaming a table or a column to its own
  name and for a new name or type that is spelled out but changes nothing (`RejectedCallSafeExactly`).
* Upgrading and downgrading the shipping migration loses `_legacy_zones` and `legacy_migration_report` of stores
  that used these keys before (`ReportKeyIsLost`). A store that the upgrade left alone and that has
  `_legacy_zones` also gets these as its `zones`, whatever it had there (`OwnZonesAreOverwritten`).
  `OnlyReservedKeysAreLostExactly` says for which stores nothing else is lost.
* One legacy rate that `float` reads as an infinity, or that is too large for a float in piastres, aborts the
  shipping migration for all stores: `round` raises an OverflowError, which is not caught (`InfiniteRateAborts`).
* Downgrading the row-security migration leaves the force flag set (`ForceFlagStays`).
* `restore` does not check that the row belongs to the store; the marketplace mirror survives exactly under
  the condition of `RestoreKeepsMirrorExactly` (`RestoreOfUnknownRowBreaksMirror` shows it broken).
* The trial backfill says that tenants on a paid plan and `demo` and `read_only` tenants are never touched.
  The plan avoids them, but `_apply` looks at neither plan nor lifecycle again: a tenant that converts or becomes
  read-only after planning is put back on trial (`LateConversionIsOverwritten`, `LateReadOnlyIsOverwritten`).
* `percentile` has rank `ceil(n * fraction)` exactly for positive fractions and rank 1 for the others; for
  fractions above one it fails with an index error (`RankExactly`).
* A smoke run leaks its order exactly when the order was created but the cleanup did not learn its id, or its
  cancellation was not confirmed, or its deletion did not take effect (`LostResponseLeaks` is one such run).

## Model

| member | source | states |
|---|---|---|
| PythonAst.KeywordValue | scripts/check_migration_safety.py:43 | a keyword has a value exactly when it was given, and the last one of that name wins |
| MigrationChecker.UpgradeVisitor.Reject | scripts/check_migration_safety.py:33-34 | appends one error at the node's line |
| MigrationChecker.UpgradeVisitor.Visit | scripts/check_migration_safety.py:29-84 | afterwards the errors have grown by the per-call verdicts of all nodes below, in pre-order: the stateful visitor is a flat map |
| MigrationChecker.UpgradeVisitor.VisitCall | scripts/check_migration_safety.py:36-84 | a call's own errors come first, then those of everything inside it |
| MigrationChecker.UpgradeVisitor.JudgeAlterColumn | scripts/check_migration_safety.py:42-51 | the errors of one `alter_column` |
| MigrationChecker.UpgradeVisitor.JudgeAddColumn | scripts/check_migration_safety.py:53-71 | the errors of one `add_column` |
| MigrationChecker.UpgradeVisitor.JudgeExecute | scripts/check_migration_safety.py:73-82 | the errors of one `execute` |
| MigrationChecker.UpgradeVisitor.GenericVisit | scripts/check_migration_safety.py:84 | visits every child exactly once in field order |
| MigrationChecker.VerdictsEmptyExactly | scripts/check_migration_safety.py:36-84 | no surrounding code hides a rejected call: the verdict is empty exactly when every node's own is |
| MigrationChecker.Check | scripts/check_migration_safety.py:87-99 | reports nothing exactly when no call in any top-level `upgrade` is rejected; otherwise all verdicts in file order |
| MigrationChecker.ModuleVerdictsMean | scripts/check_migration_safety.py:87-99 | what is reported is exactly what some call inside some top-level `upgrade` earns |
| MigrationChecker.ModuleVerdictsConcat | scripts/check_migration_safety.py:89-99 | the errors come in the order of the file |
| SchemaCompat.CompatibleIffWidens | scripts/check_migration_safety.py:2 | every old statement still works exactly when nothing is lost or narrowed and every new column may be omitted |
| SchemaCompat.OpSafeExactly | scripts/check_migration_safety.py:39-71 | which schema operations the running API survives on every schema, in both directions |
| MigrationSoundness.OnlyTextIsExact | scripts/check_migration_safety.py:18-26 | over constants, `+` and `text` the checker reads the very text that is executed |
| MigrationSoundness.LiteralSqlExactly | scripts/check_migration_safety.py:18-26 | what `literal_sql` returns is the executed text in every world exactly when the only calls involved are `text` |
| MigrationSoundness.ResplittingKeepsVerdict | scripts/check_migration_safety.py:73-82 | cutting the same SQL differently never changes the verdict |
| MigrationSoundness.SafeCallExactly | scripts/check_migration_safety.py:2 | for every call of the vocabulary, whether or not it is reported: it is safe on every schema and for every value of its dynamic parts if and only if it is harmless by its literals |
| MigrationSoundness.AcceptedCallSafeExactly | scripts/check_migration_safety.py:36-82 | an accepted call is safe on every schema and for every value of its dynamic parts if and only if its dangerous parts are pinned by literals |
| MigrationSoundness.RejectedCallSafeExactly | scripts/check_migration_safety.py:36-82 | a rejected call is safe if and only if it renames to the same name or spells out a name or type without changing it: every other rejection is earned |
| MigrationSoundness.ReasonsAreTrue | scripts/check_migration_safety.py:33-82 | an error has the call's line, and its reason is true of what the call does in every world |
| MigrationSoundness.CheckerIsSound | scripts/check_migration_safety.py:36-99 | if nothing is reported and every call is pinned, then on every schema, every path (any branches, any loop counts, cut short anywhere by `break`, `return` or an exception) and after any number of calls every statement accepted before still is |
| MigrationSoundness.HarmfulUpgradeBreaks | scripts/check_migration_safety.py:2 | an `upgrade` that makes a harmful call has a valid run after which a statement that worked before fails |
| MigrationSoundness.BareNameIsMissed | scripts/check_migration_safety.py:37-40 | `drop_table` imported and called by its own name is accepted |
| MigrationSoundness.CheckedColumnIsMissed | scripts/check_migration_safety.py:53-71 | a column whose check constraint refuses every row that leaves it out is accepted |
| MigrationSoundness.FalsyNullableIsMissed | scripts/check_migration_safety.py:49-51 | `nullable=0`, and every falsy constant but `False` and `None`, is accepted and sets NOT NULL |
| MigrationSoundness.HelperColumnIsMissed | scripts/check_migration_safety.py:54-57 | a NOT NULL column built by a helper is judged by the helper's keywords and accepted |
| MigrationSoundness.NullDefaultIsMissed | scripts/check_migration_safety.py:58-67 | a NOT NULL column whose default is a text that yields NULL is accepted |
| MigrationSoundness.KeywordColumnIsMissed | scripts/check_migration_safety.py:53-55 | a NOT NULL column given as `column=` is accepted |
| MigrationSoundness.PrimaryKeyIsMissed | scripts/check_migration_safety.py:57-67 | a primary-key column without default is NOT NULL and accepted |
| MigrationSoundness.FormattedSqlIsMissed | scripts/check_migration_safety.py:21-22 | SQL built with `format` is judged by the argument alone |
| MigrationSoundness.KeywordSqlIsMissed | scripts/check_migration_safety.py:73 | SQL given by keyword is accepted whatever it is |
| PyText.SplitOfJoin | alembic/versions/20260424_migrate_legacy_shipping_zones.py:58 | splitting undoes joining |
| PyText.StripPadded | alembic/versions/20260424_migrate_legacy_shipping_zones.py:58 | stripping takes away the blanks around a text and nothing of it |
| PyText.Split | alembic/versions/20260424_migrate_legacy_shipping_zones.py:58 | the pieces hold no separator and join back to the text |
| ShippingPlan.TextTokensAreClean | alembic/versions/20260424_migrate_legacy_shipping_zones.py:57-58 | tokens of a text field are non-empty, without commas or surrounding blanks |
| ShippingTokens.TextTokensExactly | alembic/versions/20260424_migrate_legacy_shipping_zones.py:57-58 | the tokens of a text are its pieces between commas, stripped, in order, without the empty ones |
| ShippingTokens.TextRoundTrip | alembic/versions/20260424_migrate_legacy_shipping_zones.py:57-58 | names written with commas between them and any blanks around them parse back to the names |
| ShippingTokens.ArrayTokensExactly | alembic/versions/20260424_migrate_legacy_shipping_zones.py:55-56 | the tokens of an array are its truthy items as text, in order |
| ShippingTokens.OtherShapesGiveNone | alembic/versions/20260424_migrate_legacy_shipping_zones.py:53-59 | no other value gives a token |
| ShippingPlan.RoundHalfEven | alembic/versions/20260424_migrate_legacy_shipping_zones.py:114 | a nearest integer, the even one on a tie |
| ShippingPlan.AmountCents | alembic/versions/20260424_migrate_legacy_shipping_zones.py:112-116 | the nearest amount to a positive rate, ties to even, and zero for a rate that is negative, zero or unreadable |
| ShippingTokens.PiastresRoundTrip | alembic/versions/20260424_migrate_legacy_shipping_zones.py:112-116 | a rate that is a whole number of piastres is stored as that number |
| ShippingTokens.OddRates | alembic/versions/20260424_migrate_legacy_shipping_zones.py:112-116 | negative, falsy and unreadable rates are stored as zero |
| ShippingPlan.ZoneName | alembic/versions/20260424_migrate_legacy_shipping_zones.py:108-110 | the stripped name, or else the position, as it is when shorter than 100 characters and cut to 100 otherwise; never empty |
| ShippingPlan.SiftMeans | alembic/versions/20260424_migrate_legacy_shipping_zones.py:118-128 | a zone gets exactly the codes its tokens resolve to that no earlier zone took, each once; tokens = codes + leftovers |
| ShippingTokens.SiftIsFirstWins | alembic/versions/20260424_migrate_legacy_shipping_zones.py:118-128 | codes and leftovers, in order, told by position: a token counts if it is the first to name a free code, and is otherwise reported, tagged if repeated |
| ShippingTokens.StoreIsFirstWins | alembic/versions/20260424_migrate_legacy_shipping_zones.py:99-128 | a whole store's rows are the first-named codes of all its tokens, and its report lists all the others |
| ShippingPlan.TokensAreConserved | alembic/versions/20260424_migrate_legacy_shipping_zones.py:99-128 | per store, parsed tokens = governorate rows + unresolved entries |
| ShippingPlan.ZonesMatchMigrated | alembic/versions/20260424_migrate_legacy_shipping_zones.py:107-197 | each created zone is made from the legacy zone its sort order names and has its one rate beside it; sort orders strictly increase |
| ShippingPlan.CodesMatchMigrated | alembic/versions/20260424_migrate_legacy_shipping_zones.py:105-174 | no code lies in two zones, every zone has a code, and every row links to the earliest zone naming its code |
| ShippingPlan.UncoveredExactly | alembic/versions/20260424_migrate_legacy_shipping_zones.py:118-133 | a code gets no row exactly when no token of the store resolves to it |
| ShippingPlan.CoveredByFirstZone | alembic/versions/20260424_migrate_legacy_shipping_zones.py:107-196 | a covered code has one row, in the zone from the earliest legacy zone naming it, with that zone's rounded, clamped rate |
| ShippingMigration.Migration.SiftTokens | alembic/versions/20260424_migrate_legacy_shipping_zones.py:118-128 | the token loop computes the first-wins assignment |
| ShippingMigration.Migration.InsertZone | alembic/versions/20260424_migrate_legacy_shipping_zones.py:135-196 | adds one zone, its governorate rows and one flat rate |
| ShippingMigration.Migration.ConvertZone | alembic/versions/20260424_migrate_legacy_shipping_zones.py:107-197 | one turn of the zone loop extends the store's batch by that zone |
| ShippingMigration.Migration.InsertZones | alembic/versions/20260424_migrate_legacy_shipping_zones.py:99-197 | the zone loop adds the store's batch, `zones_created` counts the zones; it fails exactly when a rate overflows |
| ShippingMigration.Migration.ConvertStore | alembic/versions/20260424_migrate_legacy_shipping_zones.py:90-216 | one turn of the outer loop: skip, convert and relocate, or fail on malformed zones |
| ShippingMigration.Migration.Upgrade | alembic/versions/20260424_migrate_legacy_shipping_zones.py:62-216 | all listed stores are converted, or the database is as it was |
| ShippingMigration.Migration.Downgrade | alembic/versions/20260424_migrate_legacy_shipping_zones.py:219-257 | restores the settings and empties the three tables, or fails and changes nothing |
| ShippingMigration.SecondUpgradeIsIdle | alembic/versions/20260424_migrate_legacy_shipping_zones.py:79-97 | a second upgrade changes nothing |
| ShippingMigration.RestoreUndoesRelocate | alembic/versions/20260424_migrate_legacy_shipping_zones.py:202-252 | relocating and restoring a store's settings loses the two reserved keys and nothing else |
| ShippingMigration.DowngradeUndoesUpgradeExactly | alembic/versions/20260424_migrate_legacy_shipping_zones.py:199-257 | downgrade after upgrade empties the tables and restores every store's settings if and only if no store used a reserved key |
| ShippingMigration.OnlyReservedKeysAreLostExactly | alembic/versions/20260424_migrate_legacy_shipping_zones.py:90-252 | for every store, upgrade and downgrade take the two reserved keys and nothing else if and only if its zones were moved or no other zones stand in `_legacy_zones` |
| ShippingMigration.OwnZonesAreOverwritten | alembic/versions/20260424_migrate_legacy_shipping_zones.py:230-252 | a store left alone by the upgrade whose `zones` the downgrade overwrites |
| ShippingMigration.ReportKeyIsLost | alembic/versions/20260424_migrate_legacy_shipping_zones.py:244-252 | a store whose own `legacy_migration_report` the downgrade deletes |
| ShippingMigration.UpgradeSucceedsExactly | alembic/versions/20260424_migrate_legacy_shipping_zones.py:90-108 | the upgrade succeeds if and only if every listed store's zones are falsy or a list of objects without a rate that overflows |
| ShippingMigration.InfiniteRateAborts | alembic/versions/20260424_migrate_legacy_shipping_zones.py:112-116 | a concrete store whose one rate `"inf"` stops the migration |
| ShippingMigration.DowngradeSucceedsExactly | alembic/versions/20260424_migrate_legacy_shipping_zones.py:244-252 | after an upgrade the downgrade succeeds if and only if no store keeps an array under `shipping` |
| ShippingMeaning.CodeUncoveredExactly | alembic/versions/20260424_migrate_legacy_shipping_zones.py:90-174 | in the migrated database a store's code is uncovered exactly when no token resolves to it |
| ShippingMeaning.CodeCoveredByFirstZone | alembic/versions/20260424_migrate_legacy_shipping_zones.py:90-196 | in the migrated database a covered code of a store has one governorate row, one zone (the earliest naming it) and one rate |
| ShippingMeaning.WrittenZonesAreLegacy | alembic/versions/20260424_migrate_legacy_shipping_zones.py:79-97 | a non-empty list of objects under `shipping.zones` is what the migration converts, whatever else the settings hold |
| ShippingMeaning.ReportIsTrue | alembic/versions/20260424_migrate_legacy_shipping_zones.py:199-216 | the report counts the store's zone rows in the migrated tables and lists its leftover tokens; its zones are kept and all other settings are as they were |
| RowSecurity.Connection.SetConfigLocal | alembic/versions/20260203_add_rls_policies.py:77 | sets the variable for the current transaction |
| RowSecurity.Connection.SetTenantContext | alembic/versions/20260203_add_rls_policies.py:73-80 | the current tenant reads back, the bypass is unchanged |
| RowSecurity.Connection.ClearTenantContext | alembic/versions/20260203_add_rls_policies.py:84-90 | no current tenant, the bypass is unchanged |
| RowSecurity.BundleMeans | alembic/versions/20260203_add_rls_policies.py:110-170 | the five policies together admit exactly the current tenant's rows, or all under the bypass, for every command and role |
| RowSecurity.BundleIsWellFormed | alembic/versions/20260203_add_rls_policies.py:110-170 | insert policies only check, select and delete policies only filter, update and bypass policies do both |
| RowSecurity.StatementMeans | alembic/versions/20260203_add_rls_policies.py:110-170 | what every statement on a protected table answers and leaves, for any role: all of the current tenant's rows and no others, or all under the bypass |
| RowSecurity.OpenTableMeans | alembic/versions/20260203_add_rls_policies.py:104-107 | without row security, and for the owner unless it is forced, a table hides nothing |
| RowSecurity.SettingMeans | alembic/versions/20260203_add_rls_policies.py:54-155 | the bypass is on exactly for a text that reads as true, the tenant is the one the text names, and no other variable matters |
| RowSecurity.BypassSeesEverything | alembic/versions/20260203_add_rls_policies.py:142-170 | setting `app.rls_bypass` to a true value makes every later statement see and write every row |
| RowSecurity.TenantSeesItsOwn | alembic/versions/20260203_add_rls_policies.py:54-80 | setting the tenant makes a session without the bypass see and write exactly that tenant's rows |
| RowSecurity.TransactionIsAtomic | alembic/versions/20260203_add_rls_policies.py:73-80 | a rollback restores the database of the transaction's start, a commit keeps what it did |
| RowSecurity.EndTransactionMeans | alembic/versions/20260203_add_rls_policies.py:73-90 | local values go at the end of a transaction and the session's come back |
| RowSecurity.StatementSeesOwnSlice | alembic/versions/20260203_add_rls_policies.py:110-137 | a tenant's statement behaves as if the table held its rows alone and leaves the others |
| RowSecurity.OwnRowsAreReached | alembic/versions/20260203_add_rls_policies.py:110-137 | isolation takes nothing away from the tenant's own rows |
| RowSecurity.NonInterference | alembic/versions/20260203_add_rls_policies.py:54-170 | databases agreeing on a tenant's rows answer any adaptive client of it alike over any number of statements, commits and rollbacks, keep agreeing, and keep everybody else's rows |
| RowSecurity.TransactionsLeaveClean | alembic/versions/20260203_add_rls_policies.py:73-90 | transaction-local settings leave at most empty strings on the connection |
| RowSecurity.NoLeakThroughPool | alembic/versions/20260203_add_rls_policies.py:60-155 | whatever ran before on a connection, a client that sets neither variable reads no row and changes none over any number of requests and transactions |
| PolicyCatalog.Catalog.IsolateAll | alembic/versions/20260203_add_rls_policies.py:93-137 | the first pass protects every listed table that exists, or fails on a name clash |
| PolicyCatalog.Catalog.BypassAll | alembic/versions/20260203_add_rls_policies.py:158-170 | the second pass adds the bypass policy to each, or fails on a name clash |
| PolicyCatalog.Catalog.Upgrade | alembic/versions/20260203_add_rls_policies.py:48-170 | protects exactly the scoped tables that exist, or changes nothing; it succeeds exactly when no policy name is taken |
| PolicyCatalog.Catalog.Downgrade | alembic/versions/20260203_add_rls_policies.py:173-205 | drops the five policies and disables row security on exactly those tables |
| PolicyCatalog.UpgradeDowngradeExactly | alembic/versions/20260203_add_rls_policies.py:100-205 | a bare table becomes protected; the round trip restores a table if and only if it was disabled and forced |
| PolicyCatalog.ForceFlagStays | alembic/versions/20260203_add_rls_policies.py:100-205 | a table without row security comes back with the force flag set |
| ThemeScripts.Scripts.DeactivateRows | scripts/dev_activate_v3_theme.py:192-197 | row by row in any order, never two active rows |
| ThemeScripts.Scripts.FlipRows | scripts/dev_activate_v3_theme.py:190-238 | the flip of the active row, never two active rows after any single write |
| ThemeScripts.Scripts.UpsertVersion | scripts/dev_activate_v3_theme.py:122-161 | the dev version is reused or inserted as not latest |
| ThemeScripts.Scripts.MirrorInstalls | scripts/dev_activate_v3_theme.py:257-277 | only the installation of the theme's marketplace entry is active |
| ThemeScripts.Scripts.Activate | scripts/dev_activate_v3_theme.py:88-279 | the whole activation or nothing, the table invariant, and the partial unique index after every row write |
| ThemeScripts.Scripts.Restore | scripts/dev_activate_v3_theme.py:292-341 | the restored pointers of both tables |
| ThemeScripts.Scripts.InternalThemes | scripts/migrate_theme_settings.py:44-49 | the dictionary of internal themes agrees with looking a slug up in the table |
| ThemeScripts.Scripts.LatestVersions | scripts/migrate_theme_settings.py:56-62 | the latest-version dictionary agrees with the relational lookup |
| ThemeScripts.Scripts.PlanRow | scripts/migrate_theme_settings.py:81-125 | a store gets a row exactly when it is eligible, with its tenant, its theme and that theme's latest version |
| ThemeScripts.Scripts.MigrateThemeSettings | scripts/migrate_theme_settings.py:38-154 | the new rows, each of the four counters as the number of listed stores with that outcome, a dry run that writes nothing, and the table invariant |
| ThemeScripts.Scripts.UpsertLatest | scripts/seed_numu_theme.py:127-173 | every version of the theme is demoted and the given one updated or inserted as the latest |
| ThemeScripts.Scripts.SeedTheme | scripts/seed_numu_theme.py:86-175 | theme upsert, demotion and version upsert, and the table invariant |
| ThemeScripts.Scripts.SeedThemes | scripts/seed_themes.py:154-226 | missing built-in themes are created with a latest version, existing ones untouched, all counted |
| ThemeTables.ActivatedPoints | scripts/dev_activate_v3_theme.py:190-277 | after activation exactly the theme's row and exactly its marketplace entry's installation are active in the store |
| ThemeTables.ActivateKeepsConsistent | scripts/dev_activate_v3_theme.py:122-277 | activation keeps every table invariant, the mirror included |
| ThemeTables.RestoreKeepsConsistent | scripts/dev_activate_v3_theme.py:302-340 | restoring a row of the store keeps every table invariant |
| ThemeTables.RestoreKeepsMirrorExactly | scripts/dev_activate_v3_theme.py:302-340 | restoring any id keeps the mirror if and only if the id is a row of the store or leaves no installation active |
| ThemeTables.RestoreOfUnknownRowBreaksMirror | scripts/dev_activate_v3_theme.py:302-340 | a consistent database in which restoring an unknown id leaves an active installation without an active row |
| ThemeTables.InsertingActiveExactly | scripts/migrate_theme_settings.py:86-95 | inserting an active row keeps one active row per store exactly when the store has none: why stores with a row are skipped |
| ThemeTables.MigrateKeepsConsistent | scripts/migrate_theme_settings.py:77-145 | the settings migration keeps every table invariant |
| ThemeTables.SeedKeepsConsistent | scripts/seed_numu_theme.py:86-173 | seeding keeps every table invariant |
| ThemeTables.SeedLeavesOneLatest | scripts/seed_numu_theme.py:127-173 | afterwards the theme has exactly one latest version, the one just seeded |
| ThemeTables.SeedBuiltinsKeepConsistent | scripts/seed_themes.py:162-221 | seeding the built-in themes keeps every table invariant |
| ThemeTables.EveryRunKeepsConsistent | scripts/dev_activate_v3_theme.py:8-20 | over every sequence of runs of the scripts: mirror, one active row, at most one latest version, rows refer to their theme's version and store's tenant |
| ThemeTables.RestoreUndoesActivate | scripts/dev_activate_v3_theme.py:190-340 | restoring the previously active row undoes activation on both tables' active pointers |
| ThemeMeaning.BuiltinsAreSeeded | scripts/seed_themes.py:162-221 | afterwards every slug has a theme; one that was missing is internal with exactly one version, its latest; nothing else changed |
| ThemeMeaning.SettingsAreMigrated | scripts/migrate_theme_settings.py:77-145 | over the rows: every listed tenant store without a row that names an internal theme with a latest version gets exactly one active row on both; there are no other new rows |
| ThemeMeaning.OutcomesMean | scripts/migrate_theme_settings.py:81-124 | how a listed store is counted, told by tenant, rows, name and versions |
| ThemeMeaning.SeededThemesAreUsed | scripts/migrate_theme_settings.py:105-145 | seeding and migrating: a store naming a built-in theme that was missing gets one active row on it and its one version |
| ThemeMeaning.SeedLeavesTheRest | scripts/seed_numu_theme.py:86-173 | a new theme is external; other themes and their versions are untouched |
| ThemeMeaning.ActivateSucceedsExactly | scripts/dev_activate_v3_theme.py:88-238 | it succeeds if and only if theme and store exist and the store has a row of the theme or a tenant |
| ThemeMeaning.ActivateLeavesTheRest | scripts/dev_activate_v3_theme.py:122-277 | nothing changes but the store's rows and installations and at most one new version, which is not the latest |
| ThemeMeaning.RestoredPoints | scripts/dev_activate_v3_theme.py:302-340 | restoring a row of the store makes it and its marketplace entry the store's only active ones; nothing else changes |
| TrustBackfill.MatchingIsStable | scripts/backfill_trust_network_events.py:118-128 | rows arriving at or after `before` never change the rows the query matches |
| TrustBackfill.AfterLastId | scripts/backfill_trust_network_events.py:123-133 | the keyset condition resumes exactly where the last batch ended |
| TrustBackfill.OptedOut | scripts/backfill_trust_network_events.py:64-72 | exactly the stores with an explicit false are opted out |
| TrustBackfill.ConsentedMembers | scripts/backfill_trust_network_events.py:136 | exactly the rows of stores that did not opt out are sent |
| TrustBackfill.Gather | scripts/backfill_trust_network_events.py:104-114 | one post per row; a row without phone hash fails |
| TrustBackfill.Process | scripts/backfill_trust_network_events.py:134-144 | one batch keeps examined = skipped + sent + failed and posts each consented row once |
| TrustBackfill.Backfill | scripts/backfill_trust_network_events.py:116-153 | for every batch size and limit, with late arrivals between batches: a prefix of the plain filter is examined, each row once; all of it without a limit |
| TrustBackfill.ReceivedMeans | scripts/backfill_trust_network_events.py:10-14 | a receiver that ignores known keys keeps its events, holds each key once and knows every delivered key |
| TrustBackfill.ReplayIsExactlyOnce | scripts/backfill_trust_network_events.py:10-18 | on any receiver and amid any other posts, once all rows have arrived every row's key has exactly one event, the row's own if the key was unknown and nobody else's; earlier events stay and nothing else is new |
| TrustBackfill.OneEventPerRowExactly | scripts/backfill_trust_network_events.py:106 | as many events as rows exactly when the rows' keys are distinct |
| TrustBackfill.RowKeysDistinctExactly | scripts/backfill_trust_network_events.py:106 | the rows' keys are distinct exactly when the given ones are and none looks like a made-up one; made-up keys never clash |
| TrustBackfill.CleanBackfillIsExactlyOnce | scripts/backfill_trust_network_events.py:10-153 | a backfill whose summary shows no failure, after earlier runs and beside the live feed, leaves exactly one event per consented matching row and adds none from an opted-out store |
| TrialExpiry.Backfill.Plan | scripts/backfill_trial_expiry.py:56-115 | the plan holds exactly the tenants with a trial end, once each, with the planned expiry |
| TrialExpiry.Backfill.Apply | scripts/backfill_trial_expiry.py:118-134 | the tenants after applying; `written` counts those that changed |
| TrialExpiry.Backfill.Run | scripts/backfill_trial_expiry.py:137-165 | plan, other writers, apply; a dry run writes nothing |
| TrialExpiry.AppliedMeans | scripts/backfill_trial_expiry.py:122-132 | a planned tenant is written exactly when it still has no expiry |
| TrialExpiry.RunIsSafe | scripts/backfill_trial_expiry.py:56-134 | with any writers in between no expiry is overwritten; a running trial ends when it was to end, a lapsed one the grace period after planning; no written expiry precedes the trial end read; with positive grace none is at or before planning; nothing else about the tenant is lost |
| TrialExpiry.RunReachesExactly | scripts/backfill_trial_expiry.py:56-134 | an undisturbed run writes exactly the active tenants without expiry, on none of the five plans in any spelling, whose owner was given a trial |
| TrialExpiry.SecondRunPlansNothing | scripts/backfill_trial_expiry.py:56-134 | an undisturbed second run plans nothing, at any time and grace |
| TrialExpiry.PlanAvoidsOffLimits | scripts/backfill_trial_expiry.py:21-28 | no planned tenant has converted, is `demo` or `read_only`, or has an expiry |
| TrialExpiry.UntouchedExactly | scripts/backfill_trial_expiry.py:21-28 | whatever a tenant has become, applying leaves it as it is if and only if it was not planned or has an expiry |
| TrialExpiry.LateConversionIsOverwritten | scripts/backfill_trial_expiry.py:122-132 | a concrete paid tenant put back on trial |
| TrialExpiry.LateReadOnlyIsOverwritten | scripts/backfill_trial_expiry.py:122-132 | a concrete read-only tenant put back on trial |
| CanaryGate.PercentileExactly | scripts/canary_gate.py:27-31 | the percentile is, at every fraction, the sample with at least k samples up to it and fewer than k below it, k = max(1, ceil(n f)), and no other value is |
| CanaryGate.RankExactly | scripts/canary_gate.py:31 | the rank is the ceiling exactly for positive fractions; the index is out of range exactly for fractions above one |
| CanaryGate.PercentilePermuted | scripts/canary_gate.py:27-31 | it does not depend on the order of the samples |
| CanaryGate.PercentileMonotone | scripts/canary_gate.py:27-31 | it is monotone under pointwise domination, and fails alike on both sides |
| CanaryGate.P95IsMaximumExactly | scripts/canary_gate.py:119-122 | at 0.95 it is always the maximum exactly when there are fewer than twenty samples |
| CanaryGate.DominatedCandidatePasses | scripts/canary_gate.py:147-167 | a candidate never slower than stable passes at any permitted ratio without a cap |
| CanaryGate.CheckHealth | scripts/canary_gate.py:138-167 | with good requests it passes exactly when the samples of that rank are within ratio and cap, and answers them; a bad request or no samples fail |
| CanaryGate.VerdictMeans | scripts/canary_gate.py:147-167 | the gate passes if and only if the samples of rank ceil(0.95 n) are within ratio and cap, and reports them; otherwise it fails, by a division exactly when stable took no time |
| CanaryGate.GatePassesExactly | scripts/canary_gate.py:147-167 | the samples it speaks of are determined, so that nothing else passes |
| CanarySmoke.Store.FunctionalSmoke | scripts/canary_gate.py:207-263 | under every placement of failures: the server effects in order, the exact remaining orders, and when the run passes |
| CanarySmoke.DeletionIsLast | scripts/canary_gate.py:249-263 | a deletion is of the created order, once, after its successful cancellation |
| CanarySmoke.OrdersAfterMeans | scripts/canary_gate.py:207-263 | after the effects of any number of runs the store holds its own orders and exactly those of the leaking runs |
| CanarySmoke.LostResponseLeaks | scripts/canary_gate.py:207-263 | a concrete run whose checkout response is lost leaves its order behind |
| WrapText.Wrap | scripts/generate_plan_pdf.py:107-122 | the lines put together have the words of the text in order, a line with a blank in it is below the limit, and no line breaking with that property is shorter |
| WrapText.WordsExactly | scripts/generate_plan_pdf.py:108-111 | the words of a text are its non-empty pieces between blanks, in order |
| WrapText.GreedyStaysAhead | scripts/generate_plan_pdf.py:112-119 | after any number of lines the greedy wrapping has used at least as many words as any other |
| WrapText.GreedyIsShortest | scripts/generate_plan_pdf.py:107-122 | no fitting wrapping has fewer lines |

## Left out

- MigrationSoundness.CheckerIsSound: changes to defaults, unique and foreign-key additions, helper functions outside `upgrade` and `exec_driver_sql` are not inspected by the checker; SQL that its regular expression does not match and calls outside its vocabulary are assumed compatible. Such calls are also `create_check_constraint` and operations reached under another name, through an alias or `getattr`.
- MigrationSoundness.AcceptedCallSafeExactly: `unique` of a new index is not modelled; in this statement table and column names are literals and no parameter is given twice. A `**` mapping, an identity or serial column and everything else that is not a literal counts as dynamic. Constraints that belong to a column's type (domains, enumerations) are not modelled.
- The regular expression for destructive SQL is an arbitrary predicate; the exactness results assume one text that stays destructive whatever surrounds it.
- ShippingPlan.AmountCents: rates are exact rationals, so binary rounding is not modelled; which finite numbers overflow is an arbitrary predicate.
- ShippingMigration.Migration.Upgrade: the settings column is an object or NULL; other JSON values there are not modelled.
- PyText.Strip: white space is the ASCII part of what Python strips.
- `resolve_governorate`, `str` of non-string values and `float` of strings are arbitrary functions.
- RowSecurity.NonInterference: rows have no keys, so uniqueness errors, foreign-key cascades and superusers are outside the model; a statement has one table and no subquery (an adaptive client may read first and write later), and a denied one does not abort its transaction by itself; every update and delete is taken to need read access.
- ThemeScripts.Scripts.Restore: its one UPDATE of `store_themes` is a single step; index safety per row is not claimed.
- Theme schemas, bundle fields, customizations, `stores.theme_settings` and timestamps do not take part in the theme invariants.
- TrustBackfill.Backfill: deletions from the log while the loop runs and arrivals without a `before` bound are not modelled.
- Concurrency inside one batch appears only as the arbitrary arrival order of its posts.
- TrialExpiry.Backfill.Plan: time zones are taken as already resolved; letter case is ASCII.
- CanaryGate.Percentile: the fraction is an exact rational, so floating-point rounding of `len * fraction` is not modelled.
- CanarySmoke.Store.FunctionalSmoke: login, CSRF tokens and the reading requests before the checkout are one `preflight` outcome; an order id in a response is the id of the order created.
- CanaryGate.CheckHealth: warm-up requests have no effect on the verdict and are not modelled.
- WrapText.Wrap: words contain no white space other than the separating blanks, and widths grow with runs of words.
- All other Alembic revisions, the application wiring, HTTP, PDF drawing, seed data and argument parsing.
