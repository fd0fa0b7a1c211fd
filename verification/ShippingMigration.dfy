/** `upgrade` and `downgrade` of `20260424_migrate_legacy_shipping_zones.py` over the whole database. */
module ShippingMigration {
  import opened Prelude
  import opened ShippingPlan

  /** The settings column holds an object or NULL. */
  datatype Store = Store(tenant: nat, settings: Option<Fields>)

  datatype Db = Db(stores: map<nat, Store>, zones: seq<ZoneRow>, governorates: seq<GovernorateRow>,
                   rates: seq<RateRow>, nextId: nat)

  const REVISION := "migrate_ship_legacy_20260424"

  /** `settings -> 'shipping'` when it is an object. */
  function Shipping(s: Store): Option<Fields> {
    if s.settings.Some? && Get(s.settings.value, "shipping").JObj?
    then Some(Get(s.settings.value, "shipping").fields) else None
  }

  /** `settings -> 'shipping' -> 'zones' IS NOT NULL` */
  predicate Selected(s: Store) {
    Shipping(s).Some? && "zones" in Shipping(s).value
  }

  /** The rows the first query returns: each selected store once, in any order. */
  ghost predicate Listed(stores: map<nat, Store>, rows: seq<nat>) {
    && (forall id :: id in rows <==> id in stores && Selected(stores[id]))
    && (forall i, j :: 0 <= i < j < |rows| ==> rows[i] != rows[j])
  }

  /** A list of objects; anything else truthy makes the conversion fail. */
  predicate Convertible(zones: Json) {
    zones.JArr? && forall z :: z in zones.items ==> z.JObj?
  }

  /** No zone's rate makes the conversion overflow. */
  predicate RatesFit(zones: Json, env: Env) {
    zones.JArr? ==> forall z :: z in zones.items ==> RateFits(z, env)
  }

  predicate RateFits(zone: Json, env: Env) {
    zone.JObj? ==> !Overflows(Get(zone.fields, "rate"), env)
  }

  function Objects(items: seq<Json>): (r: seq<Fields>)
    requires forall z :: z in items ==> z.JObj?
    ensures |r| == |items| && forall i :: 0 <= i < |r| ==> r[i] == items[i].fields
  {
    seq(|items|, i requires 0 <= i < |items| => items[i].fields)
  }

  function Report(created: nat, unresolved: seq<string>): Json {
    JObj(map[
      "zones_created" := JNum(created as real),
      "unresolved" := JArr(seq(|unresolved|, i requires 0 <= i < |unresolved| => JStr(unresolved[i]))),
      "migration_revision" := JStr(REVISION)])
  }

  /** Moves `zones` to `_legacy_zones` and adds the report. */
  function Relocated(settings: Fields, shipping: Fields, zones: Json, created: nat, unresolved: seq<string>): Fields {
    settings["shipping" :=
      JObj((shipping["_legacy_zones" := zones] - {"zones"})["legacy_migration_report" := Report(created, unresolved)])]
  }

  /** One turn of the outer loop; `None` when it fails. */
  function Convert(db: Db, id: nat, env: Env): Option<Db> {
    if id !in db.stores || !Selected(db.stores[id]) then Some(db)
    else
      var store := db.stores[id];
      var shipping := Shipping(store).value;
      var zones := shipping["zones"];
      if !Truthy(zones) then Some(db)
      else if !Convertible(zones) || !RatesFit(zones, env) then None
      else
        var b := Migrated(Owner(id, store.tenant), Objects(zones.items), db.nextId, env);
        var settings := Relocated(store.settings.value, shipping, zones, |b.zones|, b.unresolved);
        Some(Db(db.stores[id := store.(settings := Some(settings))],
                db.zones + b.zones, db.governorates + b.governorates, db.rates + b.rates, b.nextId))
  }

  function Upgraded(db: Db, rows: seq<nat>, env: Env): Option<Db> {
    if rows == [] then Some(db)
    else
      match Upgraded(db, rows[..|rows| - 1], env)
      case None => None
      case Some(d) => Convert(d, rows[|rows| - 1], env)
  }

  // ---- Downgrade ---------------------------------------------------------------------------------

  const RESERVED: set<string> := {"_legacy_zones", "legacy_migration_report"}

  /** First update: `_legacy_zones`, where present, is copied to `zones`. Second update: both reserved keys go. */
  function RestoredShipping(shipping: Fields): Fields {
    (if "_legacy_zones" in shipping then shipping["zones" := shipping["_legacy_zones"]] else shipping) - RESERVED
  }

  function Restored(s: Store): Store {
    if Shipping(s).None? then s
    else s.(settings := Some(s.settings.value["shipping" := JObj(RestoredShipping(Shipping(s).value))]))
  }

  /** `#-` refuses a text key inside an array. */
  predicate Undeletable(s: Store) {
    s.settings.Some? && Get(s.settings.value, "shipping").JArr?
  }

  function Downgraded(db: Db): Option<Db> {
    if exists id :: id in db.stores && Undeletable(db.stores[id]) then None
    else Some(Db(map id | id in db.stores :: Restored(db.stores[id]), [], [], [], db.nextId))
  }

  // ---- The migration as it runs ------------------------------------------------------------------

  class Migration {
    const env: Env
    var stores: map<nat, Store>
    var zones: seq<ZoneRow>
    var governorates: seq<GovernorateRow>
    var rates: seq<RateRow>
    var nextId: nat

    ghost function View(): Db
      reads this
    {
      Db(stores, zones, governorates, rates, nextId)
    }

    constructor (db: Db, env: Env)
      ensures View() == db && this.env == env
    {
      this.env := env;
      stores, zones, governorates, rates, nextId := db.stores, db.zones, db.governorates, db.rates, db.nextId;
    }

    /** The token loop of one legacy zone. */
    method SiftTokens(tokens: seq<string>, already: set<string>)
      returns (codes: seq<string>, unresolved: seq<string>, taken: set<string>)
      ensures Sifted(codes, unresolved, taken) == Sift(tokens, already, env)
    {
      codes, unresolved, taken := [], [], already;
      for i := 0 to |tokens|
        invariant Sifted(codes, unresolved, taken) == Sift(tokens[..i], already, env)
      {
        assert tokens[..i + 1][..i] == tokens[..i];
        var gov := env.resolve(tokens[i]);
        if gov.None? {
          unresolved := unresolved + [tokens[i]];
        } else if gov.value in taken {
          unresolved := unresolved + [tokens[i] + DUPLICATE_TAG];
        } else {
          codes := codes + [gov.value];
          taken := taken + {gov.value};
        }
      }
      assert tokens[..|tokens|] == tokens;
    }

    /** The inserts for one legacy zone with resolved codes. */
    method InsertZone(owner: Owner, legacy: Fields, idx: nat, codes: seq<string>)
      modifies this`zones, this`governorates, this`rates, this`nextId
      ensures zones == old(zones) + [NewZone(owner, old(nextId), legacy, idx, env)]
      ensures governorates == old(governorates) + NewGovernorates(owner, old(nextId), codes)
      ensures rates == old(rates) + [NewRate(owner, old(nextId) + 1, old(nextId), legacy, env)]
      ensures nextId == old(nextId) + 2
    {
      var zoneId := nextId;
      zones := zones + [NewZone(owner, zoneId, legacy, idx, env)];
      for i := 0 to |codes|
        invariant zones == old(zones) + [NewZone(owner, zoneId, legacy, idx, env)]
        invariant rates == old(rates) && nextId == zoneId
        invariant governorates == old(governorates) + NewGovernorates(owner, zoneId, codes[..i])
      {
        governorates := governorates + [GovernorateRow(zoneId, codes[i], owner.tenant, owner.store)];
        assert NewGovernorates(owner, zoneId, codes[..i + 1])
            == NewGovernorates(owner, zoneId, codes[..i])
               + [GovernorateRow(zoneId, codes[i], owner.tenant, owner.store)];
      }
      assert codes[..|codes|] == codes;
      rates := rates + [NewRate(owner, zoneId + 1, zoneId, legacy, env)];
      nextId := nextId + 2;
    }

    /** One turn of the zone loop; `b` is what the earlier turns have added since `start`. */
    method ConvertZone(owner: Owner, legacy: Fields, idx: nat, already: set<string>, before: nat, leftover: seq<string>,
                       ghost start: Db, ghost b: Batch)
      returns (created: nat, unresolved: seq<string>, taken: set<string>)
      requires Extends(start, b, before, leftover) && already == b.taken
      modifies this`zones, this`governorates, this`rates, this`nextId
      ensures Extends(start, AddZone(b, owner, legacy, idx, env), created, unresolved)
      ensures taken == AddZone(b, owner, legacy, idx, env).taken
    {
      created := before;
      var codes, left: seq<string>;
      codes, left, taken := SiftTokens(Tokens(legacy, env), already);
      unresolved := leftover + left;
      if codes != [] {
        AppendAssociates(start.zones, b.zones, [NewZone(owner, nextId, legacy, idx, env)]);
        AppendAssociates(start.governorates, b.governorates, NewGovernorates(owner, nextId, codes));
        AppendAssociates(start.rates, b.rates, [NewRate(owner, nextId + 1, nextId, legacy, env)]);
        InsertZone(owner, legacy, idx, codes);
        created := created + 1;
      }
    }

    /** The zone loop of one store; it fails at the first rate that overflows. */
    method InsertZones(owner: Owner, legacy: seq<Fields>) returns (ok: bool, created: nat, unresolved: seq<string>)
      modifies this`zones, this`governorates, this`rates, this`nextId
      ensures ok <==> forall z :: z in legacy ==> !Overflows(Get(z, "rate"), env)
      ensures ok ==> Extends(old(View()), Migrated(owner, legacy, old(nextId), env), created, unresolved)
    {
      ok, created, unresolved := true, 0, [];
      var taken: set<string> := {};
      ghost var firstId := nextId;
      for idx := 0 to |legacy|
        invariant Extends(old(View()), Migrated(owner, legacy[..idx], firstId, env), created, unresolved)
        invariant taken == Migrated(owner, legacy[..idx], firstId, env).taken
        invariant forall z :: z in legacy[..idx] ==> !Overflows(Get(z, "rate"), env)
      {
        if Overflows(Get(legacy[idx], "rate"), env) {
          assert legacy[idx] in legacy;
          ok := false;
          return;
        }
        ghost var b := Migrated(owner, legacy[..idx], firstId, env);
        assert legacy[..idx + 1][..idx] == legacy[..idx];
        assert Migrated(owner, legacy[..idx + 1], firstId, env) == AddZone(b, owner, legacy[idx], idx, env);
        created, unresolved, taken := ConvertZone(owner, legacy[idx], idx, taken, created, unresolved, old(View()), b);
      }
      assert legacy[..|legacy|] == legacy;
    }

    /** The tables have grown by the batch. */
    ghost predicate Extends(start: Db, b: Batch, created: nat, unresolved: seq<string>)
      reads this
    {
      && created == |b.zones| && unresolved == b.unresolved
      && zones == start.zones + b.zones && governorates == start.governorates + b.governorates
      && rates == start.rates + b.rates && nextId == b.nextId
      && stores == start.stores
    }

    /** One turn of the outer loop. */
    method ConvertStore(id: nat) returns (ok: bool)
      requires id in stores && Selected(stores[id])
      modifies this
      ensures ok == Convert(old(View()), id, env).Some?
      ensures ok ==> View() == Convert(old(View()), id, env).value
    {
      var store := stores[id];
      var shipping := Shipping(store).value;
      var legacy := shipping["zones"];
      if !Truthy(legacy) {
        return true;
      }
      if !Convertible(legacy) {
        return false;
      }
      var fits, created, unresolved := InsertZones(Owner(id, store.tenant), Objects(legacy.items));
      ObjectsFit(legacy, env);
      if !fits {
        return false;
      }
      var settings := Relocated(store.settings.value, shipping, legacy, created, unresolved);
      stores := stores[id := store.(settings := Some(settings))];
      return true;
    }

    /** `upgrade` on the rows its query returned: all stores are converted, or the transaction leaves
        the database as it was. */
    method Upgrade(rows: seq<nat>) returns (ok: bool)
      requires Listed(stores, rows)
      modifies this
      ensures ok == Upgraded(old(View()), rows, env).Some?
      ensures ok ==> View() == Upgraded(old(View()), rows, env).value
      ensures !ok ==> View() == old(View())
    {
      ghost var start := View();
      var saved := (stores, zones, governorates, rates, nextId);
      for r := 0 to |rows|
        invariant Upgraded(start, rows[..r], env) == Some(View())
      {
        assert rows[..r + 1][..r] == rows[..r];
        UpgradedLeavesOthers(start, rows[..r], env, rows[r]);
        assert rows[r] in rows;
        var converted := ConvertStore(rows[r]);
        if !converted {
          FailureSticks(start, rows, r + 1, env);
          stores, zones, governorates, rates, nextId := saved.0, saved.1, saved.2, saved.3, saved.4;
          return false;
        }
      }
      assert rows[..|rows|] == rows;
      return true;
    }

    method Downgrade() returns (ok: bool)
      modifies this
      ensures ok == Downgraded(old(View())).Some?
      ensures ok ==> View() == Downgraded(old(View())).value
      ensures !ok ==> View() == old(View())
    {
      if exists id :: id in stores && Undeletable(stores[id]) {
        return false;
      }
      stores := map id | id in stores :: Restored(stores[id]);
      rates := [];
      governorates := [];
      zones := [];
      return true;
    }
  }

  lemma ObjectsFit(zones: Json, env: Env)
    requires Convertible(zones)
    ensures RatesFit(zones, env) <==> forall z :: z in Objects(zones.items) ==> !Overflows(Get(z, "rate"), env)
  {
    var fields := Objects(zones.items);
    forall z | z in zones.items ensures z.fields in fields {
      var i :| 0 <= i < |zones.items| && zones.items[i] == z;
      assert fields[i] == z.fields;
    }
    forall f | f in fields ensures JObj(f) in zones.items {
      var i :| 0 <= i < |fields| && fields[i] == f;
      assert zones.items[i] in zones.items && zones.items[i] == JObj(f);
    }
  }

  lemma {:induction false} UpgradedLeavesOthers(db: Db, rows: seq<nat>, env: Env, id: nat)
    requires Upgraded(db, rows, env).Some? && id !in rows
    ensures var d := Upgraded(db, rows, env).value;
            (id in d.stores <==> id in db.stores) && (id in db.stores ==> d.stores[id] == db.stores[id])
  {
    if rows != [] {
      UpgradedLeavesOthers(db, rows[..|rows| - 1], env, id);
    }
  }

  lemma {:induction false} FailureSticks(db: Db, rows: seq<nat>, r: nat, env: Env)
    requires r <= |rows| && Upgraded(db, rows[..r], env).None?
    ensures Upgraded(db, rows, env).None?
  {
    if r == |rows| {
      assert rows[..r] == rows;
    } else {
      assert rows[..|rows| - 1][..r] == rows[..r];
      FailureSticks(db, rows[..|rows| - 1], r, env);
    }
  }

  // ---- Twice, and back ---------------------------------------------------------------------------

  /** What the whole upgrade leaves of each store. */
  lemma {:induction false} UpgradedStores(db: Db, rows: seq<nat>, env: Env, id: nat)
    requires Upgraded(db, rows, env).Some? && id in db.stores
    requires forall i, j :: 0 <= i < j < |rows| ==> rows[i] != rows[j]
    ensures var d := Upgraded(db, rows, env).value;
            && id in d.stores
            && (d.stores[id] == db.stores[id]
                || (id in rows && Selected(db.stores[id]) && Truthy(Shipping(db.stores[id]).value["zones"]) &&
                    exists created, unresolved :: d.stores[id] == db.stores[id].(settings := Some(
                      Relocated(db.stores[id].settings.value, Shipping(db.stores[id]).value,
                                Shipping(db.stores[id]).value["zones"], created, unresolved)))))
            && (id in rows && Selected(d.stores[id]) ==> !Truthy(Shipping(d.stores[id]).value["zones"]))
            && d.stores.Keys == db.stores.Keys
  {
    if rows != [] {
      var init, last := rows[..|rows| - 1], rows[|rows| - 1];
      UpgradedStores(db, init, env, id);
      if id == last {
        assert id !in init;
        UpgradedLeavesOthers(db, init, env, id);
      } else {
        assert id in rows ==> id in init;
      }
    }
  }

  /** A second upgrade changes nothing. */
  lemma {:induction false} SecondUpgradeIsIdle(db: Db, rows: seq<nat>, env: Env, again: seq<nat>)
    requires Listed(db.stores, rows) && Upgraded(db, rows, env).Some?
    requires forall id :: id in again ==> id in Upgraded(db, rows, env).value.stores
    ensures Upgraded(Upgraded(db, rows, env).value, again, env) == Some(Upgraded(db, rows, env).value)
    decreases |again|
  {
    var d := Upgraded(db, rows, env).value;
    if again != [] {
      var id := again[|again| - 1];
      assert forall other :: other in again[..|again| - 1] ==> other in again;
      SecondUpgradeIsIdle(db, rows, env, again[..|again| - 1]);
      assert id in again;
      if id !in db.stores {
        UpgradedLeavesOthers(db, rows, env, id);
      } else {
        UpgradedStores(db, rows, env, id);
        if id !in rows {
          UpgradedLeavesOthers(db, rows, env, id);
        }
      }
      assert Convert(d, id, env) == Some(d);
    }
  }

  predicate UsesReserved(s: Store) {
    Shipping(s).Some? && ("_legacy_zones" in Shipping(s).value || "legacy_migration_report" in Shipping(s).value)
  }

  /** The store without the two reserved keys. */
  function WithoutReserved(s: Store): Store {
    if Shipping(s).None? then s
    else s.(settings := Some(s.settings.value["shipping" := JObj(Shipping(s).value - RESERVED)]))
  }

  lemma WithoutReservedExactly(s: Store)
    ensures WithoutReserved(s) == s <==> !UsesReserved(s)
  {
    if Shipping(s).Some? {
      var shipping := Shipping(s).value;
      if !UsesReserved(s) {
        assert shipping - RESERVED == shipping;
        assert s.settings.value["shipping" := JObj(shipping)] == s.settings.value;
      } else {
        assert "_legacy_zones" in RESERVED && "legacy_migration_report" in RESERVED;
        assert Shipping(WithoutReserved(s)) == Some(shipping - RESERVED);
      }
    }
  }

  /** Relocating and restoring a store's settings loses the reserved keys and nothing else. */
  lemma RestoreUndoesRelocate(s: Store, created: nat, unresolved: seq<string>)
    requires Selected(s)
    ensures Restored(s.(settings := Some(
              Relocated(s.settings.value, Shipping(s).value, Shipping(s).value["zones"], created, unresolved))))
         == WithoutReserved(s)
  {
    var shipping := Shipping(s).value;
    var moved := (shipping["_legacy_zones" := shipping["zones"]] - {"zones"})
                 ["legacy_migration_report" := Report(created, unresolved)];
    assert "zones" != "_legacy_zones" && "zones" != "legacy_migration_report" by {
      assert "zones"[0] == 'z' && "_legacy_zones"[0] == '_' && "legacy_migration_report"[0] == 'l';
    }
    assert "legacy_migration_report" != "_legacy_zones" by {
      assert |"_legacy_zones"| != |"legacy_migration_report"|;
    }
    assert moved["_legacy_zones"] == shipping["zones"];
    assert RestoredShipping(moved) == shipping - RESERVED;
    var settings := s.settings.value;
    assert settings["shipping" := JObj(moved)]["shipping" := JObj(shipping - RESERVED)]
        == settings["shipping" := JObj(shipping - RESERVED)];
  }

  /** A store the upgrade left alone comes back exactly when it does not use the reserved keys. */
  lemma RestoreAlone(s: Store)
    ensures Restored(s) == s <==> !UsesReserved(s)
  {
    if Shipping(s).Some? {
      var shipping := Shipping(s).value;
      assert "zones" !in RESERVED by {
        assert "zones"[0] == 'z' && "_legacy_zones"[0] == '_' && "legacy_migration_report"[0] == 'l';
      }
      if !UsesReserved(s) {
        assert RestoredShipping(shipping) == shipping;
        assert s.settings.value["shipping" := JObj(shipping)] == s.settings.value;
      } else {
        assert "_legacy_zones" in RESERVED && "legacy_migration_report" in RESERVED;
        assert Shipping(Restored(s)) == Some(RestoredShipping(shipping));
      }
    }
  }

  /** The upgrade moves this store's zones. */
  predicate Relocates(s: Store) {
    Selected(s) && Truthy(Shipping(s).value["zones"])
  }

  /** The downgrade has nothing to write over the store's own `zones`. */
  predicate KeepsOwnZones(s: Store) {
    Shipping(s).Some? && "_legacy_zones" in Shipping(s).value ==>
      "zones" in Shipping(s).value && Shipping(s).value["zones"] == Shipping(s).value["_legacy_zones"]
  }

  lemma RestoreKeepsTheRestExactly(s: Store)
    ensures Restored(s) == WithoutReserved(s) <==> KeepsOwnZones(s)
  {
    if Shipping(s).Some? {
      var shipping := Shipping(s).value;
      assert "zones" !in RESERVED by {
        assert "zones"[0] == 'z' && "_legacy_zones"[0] == '_' && "legacy_migration_report"[0] == 'l';
      }
      if KeepsOwnZones(s) {
        assert RestoredShipping(shipping) == shipping - RESERVED;
      } else {
        var back, kept := RestoredShipping(shipping), shipping - RESERVED;
        assert "zones" in back && back["zones"] == shipping["_legacy_zones"];
        assert "zones" in kept ==> "zones" in shipping && kept["zones"] == shipping["zones"];
        assert back != kept;
        assert Shipping(Restored(s)) == Some(back) && Shipping(WithoutReserved(s)) == Some(kept);
      }
    }
  }

  /** Upgrade and downgrade together take the two reserved keys from a store and nothing else if and only
      if its zones were moved or the downgrade finds no other zones to put in their place. */
  lemma OnlyReservedKeysAreLostExactly(db: Db, rows: seq<nat>, env: Env, id: nat)
    requires Listed(db.stores, rows) && Upgraded(db, rows, env).Some? && id in db.stores
    ensures id in Upgraded(db, rows, env).value.stores
    ensures Restored(Upgraded(db, rows, env).value.stores[id]) == WithoutReserved(db.stores[id])
            <==> Relocates(db.stores[id]) || KeepsOwnZones(db.stores[id])
  {
    UpgradedStores(db, rows, env, id);
    var s, t := db.stores[id], Upgraded(db, rows, env).value.stores[id];
    if s == t {
      RestoreKeepsTheRestExactly(s);
    } else {
      var created, unresolved :| t == s.(settings := Some(
        Relocated(s.settings.value, Shipping(s).value, Shipping(s).value["zones"], created, unresolved)));
      RestoreUndoesRelocate(s, created, unresolved);
    }
  }

  /** A store whose empty `zones` and full `_legacy_zones` the upgrade leaves alone gets the latter as its zones. */
  lemma OwnZonesAreOverwritten(tenant: nat, settings: Fields)
    requires settings == map["shipping" := JObj(map["zones" := JArr([]), "_legacy_zones" := JArr([JObj(map[])])])]
    ensures var s := Store(tenant, Some(settings));
            && !Relocates(s)
            && Restored(s) == Store(tenant, Some(map["shipping" := JObj(map["zones" := JArr([JObj(map[])])])]))
  {
    var s := Store(tenant, Some(settings));
    var shipping := Shipping(s).value;
    assert "zones" !in RESERVED && "zones" != "_legacy_zones" by {
      assert "zones"[0] == 'z' && "_legacy_zones"[0] == '_' && "legacy_migration_report"[0] == 'l';
    }
    assert RestoredShipping(shipping) == map["zones" := JArr([JObj(map[])])];
    assert Restored(s).settings.value == map["shipping" := JObj(RestoredShipping(shipping))];
  }

  /** A store that kept something of its own under `legacy_migration_report` does not get it back. */
  lemma ReportKeyIsLost(tenant: nat, note: Json)
    ensures var s := Store(tenant, Some(map["shipping" := JObj(map["legacy_migration_report" := note])]));
            UsesReserved(s) && Restored(s) != s && Restored(s) == WithoutReserved(s)
  {
    var s := Store(tenant, Some(map["shipping" := JObj(map["legacy_migration_report" := note])]));
    assert Shipping(s) == Some(map["legacy_migration_report" := note]);
    assert "_legacy_zones" !in Shipping(s).value by {
      assert |"_legacy_zones"| != |"legacy_migration_report"|;
    }
    RestoreAlone(s);
    RestoreKeepsTheRestExactly(s);
  }

  /** Falsy zones are skipped, a list of objects whose rates fit is converted, anything else stops the
      migration. */
  predicate Transferable(s: Store, env: Env) {
    Relocates(s) ==>
      var zones := Shipping(s).value["zones"];
      zones.JArr? && forall z :: z in zones.items ==> z.JObj? && !Overflows(Get(z.fields, "rate"), env)
  }

  /** The upgrade succeeds exactly when every listed store's zones are falsy or a list of objects without a
      rate that overflows. */
  lemma {:induction false} UpgradeSucceedsExactly(db: Db, rows: seq<nat>, env: Env)
    requires forall i, j :: 0 <= i < j < |rows| ==> rows[i] != rows[j]
    ensures Upgraded(db, rows, env).Some?
            <==> forall id :: id in rows && id in db.stores ==> Transferable(db.stores[id], env)
  {
    if rows != [] {
      var init, last := rows[..|rows| - 1], rows[|rows| - 1];
      UpgradeSucceedsExactly(db, init, env);
      assert forall id :: id in rows <==> id in init || id == last;
      if Upgraded(db, init, env).Some? {
        assert last !in init;
        UpgradedLeavesOthers(db, init, env, last);
      }
    }
  }

  /** One zone with the rate "inf" stops the migration of all stores. */
  lemma InfiniteRateAborts(tenant: nat, id: nat, env: Env)
    requires env.parseFloat("inf") == Infinite
    ensures var zones := JArr([JObj(map["rate" := JStr("inf")])]);
            var store := Store(tenant, Some(map["shipping" := JObj(map["zones" := zones])]));
            Listed(map[id := store], [id]) && Upgraded(Db(map[id := store], [], [], [], 0), [id], env).None?
  {
    var zone := JObj(map["rate" := JStr("inf")]);
    var zones := JArr([zone]);
    var store := Store(tenant, Some(map["shipping" := JObj(map["zones" := zones])]));
    assert zone in zones.items && Overflows(Get(zone.fields, "rate"), env);
    UpgradeSucceedsExactly(Db(map[id := store], [], [], [], 0), [id], env);
    assert id in [id] && !Transferable(store, env);
  }

  /** After an upgrade the downgrade succeeds exactly when no store kept an array under `shipping`. */
  lemma DowngradeSucceedsExactly(db: Db, rows: seq<nat>, env: Env)
    requires Listed(db.stores, rows) && Upgraded(db, rows, env).Some?
    ensures Downgraded(Upgraded(db, rows, env).value).Some?
            <==> forall id :: id in db.stores ==> !Undeletable(db.stores[id])
  {
    var up := Upgraded(db, rows, env).value;
    forall id ensures id in up.stores <==> id in db.stores {
      if id in db.stores {
        UpgradedStores(db, rows, env, id);
      } else {
        assert id !in rows;
        UpgradedLeavesOthers(db, rows, env, id);
      }
    }
    forall id | id in db.stores ensures Undeletable(up.stores[id]) <==> Undeletable(db.stores[id]) {
      UpgradedStores(db, rows, env, id);
      var s, t := db.stores[id], up.stores[id];
      if s != t {
        var created, unresolved :| t == s.(settings := Some(
          Relocated(s.settings.value, Shipping(s).value, Shipping(s).value["zones"], created, unresolved)));
        assert Get(t.settings.value, "shipping").JObj?;
      }
    }
    if id :| id in db.stores && Undeletable(db.stores[id]) {
      assert id in up.stores && Undeletable(up.stores[id]);
    }
  }

  /** Downgrade after upgrade always empties the shipping tables, and gives every store its settings back
      if and only if no store used one of the two reserved keys before. */
  lemma DowngradeUndoesUpgradeExactly(db: Db, rows: seq<nat>, env: Env)
    requires Listed(db.stores, rows) && Upgraded(db, rows, env).Some?
    requires Downgraded(Upgraded(db, rows, env).value).Some?
    ensures var d := Downgraded(Upgraded(db, rows, env).value).value;
            && d.zones == [] && d.governorates == [] && d.rates == []
            && (d.stores == db.stores <==> forall id :: id in db.stores ==> !UsesReserved(db.stores[id]))
  {
    var up := Upgraded(db, rows, env).value;
    var d := Downgraded(up).value;
    forall id ensures id in d.stores <==> id in db.stores {
      if id in db.stores {
        UpgradedStores(db, rows, env, id);
      } else {
        assert id !in rows;
        UpgradedLeavesOthers(db, rows, env, id);
      }
    }
    forall id | id in db.stores ensures d.stores[id] == db.stores[id] <==> !UsesReserved(db.stores[id]) {
      StoreComesBackExactly(db, rows, env, id);
    }
  }

  lemma StoreComesBackExactly(db: Db, rows: seq<nat>, env: Env, id: nat)
    requires Listed(db.stores, rows) && Upgraded(db, rows, env).Some? && id in db.stores
    ensures id in Upgraded(db, rows, env).value.stores
    ensures Restored(Upgraded(db, rows, env).value.stores[id]) == db.stores[id] <==> !UsesReserved(db.stores[id])
  {
    UpgradedStores(db, rows, env, id);
    var s, t := db.stores[id], Upgraded(db, rows, env).value.stores[id];
    if s == t {
      RestoreAlone(s);
    } else {
      var created, unresolved :| t == s.(settings := Some(
        Relocated(s.settings.value, Shipping(s).value, Shipping(s).value["zones"], created, unresolved)));
      RestoreUndoesRelocate(s, created, unresolved);
      WithoutReservedExactly(s);
    }
  }
}
