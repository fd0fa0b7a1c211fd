/** What the shipping migration preserves, read off the migrated database: each store finds its own
    batch of rows there, apart from everybody else's, and through it its legacy configuration. */
module ShippingMeaning {
  import opened Prelude
  import opened ShippingPlan
  import opened ShippingMigration
  import opened ShippingTokens

  /** Where a store's batch sits in the tables. */
  datatype Slot = Slot(firstId: nat, zones0: seq<ZoneRow>, zones1: seq<ZoneRow>,
                       governorates0: seq<GovernorateRow>, governorates1: seq<GovernorateRow>,
                       rates0: seq<RateRow>, rates1: seq<RateRow>)

  predicate Outside(id: nat, b: Batch, slot: Slot) {
    id < slot.firstId || id >= b.nextId
  }

  /** The tables are the batch with rows around it that have nothing to do with the store or the batch. */
  ghost predicate Holds(d: Db, store: nat, b: Batch, slot: Slot) {
    && d.zones == slot.zones0 + b.zones + slot.zones1
    && d.governorates == slot.governorates0 + b.governorates + slot.governorates1
    && d.rates == slot.rates0 + b.rates + slot.rates1
    && (forall z :: z in slot.zones0 || z in slot.zones1 ==> z.store != store && Outside(z.id, b, slot))
    && (forall g :: g in slot.governorates0 || g in slot.governorates1 ==> g.store != store)
    && (forall q :: q in slot.rates0 || q in slot.rates1 ==> Outside(q.zone, b, slot))
    && b.nextId <= d.nextId
  }

  predicate NoRows(db: Db) {
    db.zones == [] && db.governorates == [] && db.rates == []
  }

  predicate WithinBatch(b: Batch, store: nat, firstId: nat) {
    && firstId <= b.nextId
    && (forall z :: z in b.zones ==> z.store == store && firstId <= z.id < b.nextId)
    && (forall g :: g in b.governorates ==> g.store == store)
    && (forall q :: q in b.rates ==> firstId <= q.zone < b.nextId)
  }

  lemma BatchIsWithin(owner: Owner, legacy: seq<Fields>, firstId: nat, env: Env)
    ensures WithinBatch(Migrated(owner, legacy, firstId, env), owner.store, firstId)
  {
    ZonesMatchMigrated(owner, legacy, firstId, env);
    CodesMatchMigrated(owner, legacy, firstId, env);
    var b := Migrated(owner, legacy, firstId, env);
    forall g | g in b.governorates ensures g.store == owner.store {
      assert LinksFirst(g, b, owner, legacy, env);
    }
  }

  /** All rows so far belong to converted stores and use ids already given out. */
  ghost predicate Bounded(d: Db, rows: seq<nat>) {
    && (forall z :: z in d.zones ==> z.store in rows && z.id < d.nextId)
    && (forall g :: g in d.governorates ==> g.store in rows)
    && (forall q :: q in d.rates ==> q.zone < d.nextId)
  }

  /** A store whose legacy zones are converted. */
  predicate HasLegacy(s: Store) {
    Selected(s) && Truthy(Shipping(s).value["zones"]) && Convertible(Shipping(s).value["zones"])
  }

  function Legacy(s: Store): seq<Fields>
    requires HasLegacy(s)
  {
    Objects(Shipping(s).value["zones"].items)
  }

  function BatchOf(s: Store, id: nat, firstId: nat, env: Env): Batch
    requires HasLegacy(s)
  {
    Migrated(Owner(id, s.tenant), Legacy(s), firstId, env)
  }

  /** Converting a store either leaves the tables alone or appends its batch. */
  lemma ConvertAppends(d: Db, id: nat, env: Env)
    requires Convert(d, id, env).Some?
    ensures var e := Convert(d, id, env).value;
            if id in d.stores && HasLegacy(d.stores[id]) then
              var b := BatchOf(d.stores[id], id, d.nextId, env);
              && e.zones == d.zones + b.zones && e.governorates == d.governorates + b.governorates
              && e.rates == d.rates + b.rates && e.nextId == b.nextId
              && WithinBatch(b, id, d.nextId)
            else e == d
  {
    if id in d.stores && HasLegacy(d.stores[id]) {
      BatchIsWithin(Owner(id, d.stores[id].tenant), Legacy(d.stores[id]), d.nextId, env);
    }
  }

  lemma {:induction false} UpgradedIsBounded(db: Db, rows: seq<nat>, env: Env)
    requires NoRows(db) && Upgraded(db, rows, env).Some?
    ensures Bounded(Upgraded(db, rows, env).value, rows)
  {
    if rows != [] {
      var init, last := rows[..|rows| - 1], rows[|rows| - 1];
      UpgradedIsBounded(db, init, env);
      ConvertAppends(Upgraded(db, init, env).value, last, env);
      assert last in rows && forall id :: id in init ==> id in rows;
    }
  }

  /** A successful upgrade has converted every listed store that had legacy zones. */
  lemma {:induction false} SlotOf(db: Db, rows: seq<nat>, env: Env, id: nat) returns (slot: Slot)
    requires NoRows(db) && Upgraded(db, rows, env).Some?
    requires forall i, j :: 0 <= i < j < |rows| ==> rows[i] != rows[j]
    requires id in rows && id in db.stores && HasLegacy(db.stores[id])
    ensures Holds(Upgraded(db, rows, env).value, id, BatchOf(db.stores[id], id, slot.firstId, env), slot)
    decreases |rows|
  {
    var init, last := rows[..|rows| - 1], rows[|rows| - 1];
    var d := Upgraded(db, init, env).value;
    ConvertAppends(d, last, env);
    UpgradedIsBounded(db, init, env);
    if last == id {
      assert id !in init;
      UpgradedLeavesOthers(db, init, env, id);
      slot := FreshSlot(d, Upgraded(db, rows, env).value, id, BatchOf(db.stores[id], id, d.nextId, env));
    } else {
      assert id in init;
      slot := SlotOf(db, init, env, id);
      var b := BatchOf(db.stores[id], id, slot.firstId, env);
      if last in d.stores && HasLegacy(d.stores[last]) {
        slot := WidenSlot(d, Upgraded(db, rows, env).value, id, b, slot, last,
                          BatchOf(d.stores[last], last, d.nextId, env));
      }
    }
  }

  lemma FreshSlot(d: Db, e: Db, id: nat, b: Batch) returns (slot: Slot)
    requires e.zones == d.zones + b.zones && e.governorates == d.governorates + b.governorates
    requires e.rates == d.rates + b.rates && e.nextId == b.nextId
    requires forall z :: z in d.zones ==> z.store != id && z.id < d.nextId
    requires forall g :: g in d.governorates ==> g.store != id
    requires forall q :: q in d.rates ==> q.zone < d.nextId
    ensures slot.firstId == d.nextId && Holds(e, id, b, slot)
  {
    slot := Slot(d.nextId, d.zones, [], d.governorates, [], d.rates, []);
    assert e.zones == slot.zones0 + b.zones + [] && e.governorates == slot.governorates0 + b.governorates + []
        && e.rates == slot.rates0 + b.rates + [];
  }

  lemma WidenSlot(d: Db, e: Db, id: nat, b: Batch, slot: Slot, other: nat, added: Batch) returns (wider: Slot)
    requires Holds(d, id, b, slot) && other != id && WithinBatch(added, other, d.nextId)
    requires e.zones == d.zones + added.zones && e.governorates == d.governorates + added.governorates
    requires e.rates == d.rates + added.rates && e.nextId == added.nextId
    ensures wider.firstId == slot.firstId && Holds(e, id, b, wider)
  {
    wider := slot.(zones1 := slot.zones1 + added.zones, governorates1 := slot.governorates1 + added.governorates,
                   rates1 := slot.rates1 + added.rates);
    AppendAssociates(slot.zones0 + b.zones, slot.zones1, added.zones);
    AppendAssociates(slot.governorates0 + b.governorates, slot.governorates1, added.governorates);
    AppendAssociates(slot.rates0 + b.rates, slot.rates1, added.rates);
  }

  /** In the migrated database a store's code has no governorate row exactly when no token of its legacy
      zones resolves to it. */
  lemma CodeUncoveredExactly(db: Db, rows: seq<nat>, env: Env, id: nat, code: string)
    requires NoRows(db) && Listed(db.stores, rows) && Upgraded(db, rows, env).Some?
    requires id in db.stores && HasLegacy(db.stores[id])
    ensures (forall g :: g in Upgraded(db, rows, env).value.governorates && g.store == id ==> g.code != code)
            <==> Unnamed(Legacy(db.stores[id]), env, code)
  {
    var slot := SlotOf(db, rows, env, id);
    var owner := Owner(id, db.stores[id].tenant);
    UncoveredExactly(owner, Legacy(db.stores[id]), slot.firstId, env, code);
    BatchIsWithin(owner, Legacy(db.stores[id]), slot.firstId, env);
    var d, b := Upgraded(db, rows, env).value, BatchOf(db.stores[id], id, slot.firstId, env);
    assert forall g :: g in d.governorates && g.store == id <==> g in b.governorates;
  }

  /** No governorate row but `i` is of the store and the code. */
  ghost predicate OnlyRowOf(d: Db, store: nat, code: string, i: nat) {
    forall j :: 0 <= j < |d.governorates| && d.governorates[j].store == store && d.governorates[j].code == code
      ==> j == i
  }

  /** A covered code of a store has exactly one governorate row `i` in the migrated database. Its zone `k`
      is the one made from the earliest legacy zone that names the code, and that zone's one rate `l` is
      the legacy rate rounded to the piastre and never negative. */
  lemma CodeCoveredByFirstZone(db: Db, rows: seq<nat>, env: Env, id: nat, code: string) returns (i: nat, k: nat, l: nat)
    requires NoRows(db) && Listed(db.stores, rows) && Upgraded(db, rows, env).Some?
    requires id in db.stores && HasLegacy(db.stores[id])
    requires FirstZone(Legacy(db.stores[id]), code, env).Some?
    ensures var d, legacy := Upgraded(db, rows, env).value, Legacy(db.stores[id]);
            var first := FirstZone(legacy, code, env).value;
            && i < |d.governorates| && k < |d.zones| && l < |d.rates|
            && d.governorates[i] == GovernorateRow(d.zones[k].id, code, db.stores[id].tenant, id)
            && OnlyRowOf(d, id, code, i)
            && d.zones[k] == ZoneRow(d.zones[k].id, db.stores[id].tenant, id, ZoneName(legacy[first], first, env),
                                     2, 5, true, 0, true, first)
            && (forall j :: 0 <= j < |d.zones| && d.zones[j].id == d.zones[k].id ==> j == k)
            && d.rates[l] == RateRow(d.rates[l].id, db.stores[id].tenant, d.zones[k].id, "flat", "Standard",
                                     AmountCents(Get(legacy[first], "rate"), env), true, 0)
            && (forall j :: 0 <= j < |d.rates| && d.rates[j].zone == d.zones[k].id ==> j == l)
  {
    var slot := SlotOf(db, rows, env, id);
    var owner, legacy := Owner(id, db.stores[id].tenant), Legacy(db.stores[id]);
    var d, b := Upgraded(db, rows, env).value, BatchOf(db.stores[id], id, slot.firstId, env);
    BatchIsWithin(owner, legacy, slot.firstId, env);
    var bi, bk := CoveredByFirstZone(owner, legacy, slot.firstId, env, code);
    assert b.zones[bk] in b.zones;
    i, k, l := SlotShows(d, id, b, slot, bi, bk, code);
  }

  /** What is unique in the batch is unique in the tables. */
  lemma SlotShows(d: Db, id: nat, b: Batch, slot: Slot, bi: nat, bk: nat, code: string) returns (i: nat, k: nat, l: nat)
    requires Holds(d, id, b, slot) && bi < |b.governorates| && bk < |b.zones| == |b.rates|
    requires forall j :: 0 <= j < |b.governorates| && b.governorates[j].code == code ==> j == bi
    requires !Outside(b.zones[bk].id, b, slot) && b.rates[bk].zone == b.zones[bk].id
    requires forall j :: 0 <= j < |b.zones| && b.zones[j].id == b.zones[bk].id ==> j == bk
    requires forall j :: 0 <= j < |b.rates| && b.rates[j].zone == b.zones[bk].id ==> j == bk
    ensures i < |d.governorates| && d.governorates[i] == b.governorates[bi]
    ensures OnlyRowOf(d, id, code, i)
    ensures k < |d.zones| && d.zones[k] == b.zones[bk]
    ensures forall j :: 0 <= j < |d.zones| && d.zones[j].id == b.zones[bk].id ==> j == k
    ensures l < |d.rates| && d.rates[l] == b.rates[bk]
    ensures forall j :: 0 <= j < |d.rates| && d.rates[j].zone == b.zones[bk].id ==> j == l
  {
    i, k, l := |slot.governorates0| + bi, |slot.zones0| + bk, |slot.rates0| + bk;
    UniqueGovernorate(d, id, b, slot, bi, code);
    UniqueZone(d, id, b, slot, bk);
    UniqueRate(d, id, b, slot, bk, b.zones[bk].id);
  }

  lemma UniqueGovernorate(d: Db, id: nat, b: Batch, slot: Slot, bi: nat, code: string)
    requires Holds(d, id, b, slot) && bi < |b.governorates|
    requires forall j :: 0 <= j < |b.governorates| && b.governorates[j].code == code ==> j == bi
    ensures var i := |slot.governorates0| + bi;
            && i < |d.governorates| && d.governorates[i] == b.governorates[bi]
            && OnlyRowOf(d, id, code, i)
  {
    UniqueInMiddle(slot.governorates0, b.governorates, slot.governorates1,
                   (g: GovernorateRow) => g.store == id && g.code == code, bi);
  }

  lemma UniqueZone(d: Db, id: nat, b: Batch, slot: Slot, bk: nat)
    requires Holds(d, id, b, slot) && bk < |b.zones| && !Outside(b.zones[bk].id, b, slot)
    requires forall j :: 0 <= j < |b.zones| && b.zones[j].id == b.zones[bk].id ==> j == bk
    ensures var k := |slot.zones0| + bk;
            && k < |d.zones| && d.zones[k] == b.zones[bk]
            && forall j :: 0 <= j < |d.zones| && d.zones[j].id == d.zones[k].id ==> j == k
  {
    var zone := b.zones[bk].id;
    UniqueInMiddle(slot.zones0, b.zones, slot.zones1, (z: ZoneRow) => z.id == zone, bk);
  }

  lemma UniqueRate(d: Db, id: nat, b: Batch, slot: Slot, bk: nat, zone: nat)
    requires Holds(d, id, b, slot) && bk < |b.rates| && b.rates[bk].zone == zone && !Outside(zone, b, slot)
    requires forall j :: 0 <= j < |b.rates| && b.rates[j].zone == zone ==> j == bk
    ensures var l := |slot.rates0| + bk;
            && l < |d.rates| && d.rates[l] == b.rates[bk]
            && forall j :: 0 <= j < |d.rates| && d.rates[j].zone == zone ==> j == l
  {
    UniqueInMiddle(slot.rates0, b.rates, slot.rates1, (q: RateRow) => q.zone == zone, bk);
  }

  /** What is unique in the middle part, and absent around it, is unique in the whole. */
  lemma UniqueInMiddle<T>(pre: seq<T>, mid: seq<T>, post: seq<T>, p: T -> bool, k: nat)
    requires k < |mid| && forall x :: x in pre || x in post ==> !p(x)
    requires forall j :: 0 <= j < |mid| && p(mid[j]) ==> j == k
    ensures var all := pre + mid + post;
            && |pre| + k < |all| && all[|pre| + k] == mid[k]
            && forall j :: 0 <= j < |all| && p(all[j]) ==> j == |pre| + k
  {
    var all := pre + mid + post;
    forall j | 0 <= j < |all| && p(all[j]) ensures j == |pre| + k {
      assert all[j] in pre || all[j] in post || (|pre| <= j < |pre| + |mid| && all[j] == mid[j - |pre|]);
    }
  }

  // ---- The settings left behind ------------------------------------------------------------------

  /** A store with a non-empty list of objects under `shipping.zones`, whatever else its settings hold, has
      these as its legacy zones. */
  lemma WrittenZonesAreLegacy(tenant: nat, settings: Fields, shipping: Fields, zones: seq<Fields>)
    requires zones != []
    ensures var items := seq(|zones|, i requires 0 <= i < |zones| => JObj(zones[i]));
            var s := Store(tenant, Some(settings["shipping" := JObj(shipping["zones" := JArr(items)])]));
            HasLegacy(s) && Legacy(s) == zones
  {
    var items := seq(|zones|, i requires 0 <= i < |zones| => JObj(zones[i]));
    var s := Store(tenant, Some(settings["shipping" := JObj(shipping["zones" := JArr(items)])]));
    assert Shipping(s) == Some(shipping["zones" := JArr(items)]);
    assert Objects(items) == zones;
  }

  /** The number of zones and the leftovers do not depend on the ids. */
  lemma {:induction false} FirstIdDoesNotMatter(owner: Owner, legacy: seq<Fields>, f: nat, g: nat, env: Env)
    ensures var a, b := Migrated(owner, legacy, f, env), Migrated(owner, legacy, g, env);
            |a.zones| == |b.zones| && a.unresolved == b.unresolved && a.taken == b.taken
  {
    if legacy != [] {
      FirstIdDoesNotMatter(owner, legacy[..|legacy| - 1], f, g, env);
    }
  }

  /** A converted store's settings, for the batch it would have with any first id. */
  lemma {:induction false} UpgradedSettings(db: Db, rows: seq<nat>, env: Env, id: nat, firstId: nat)
    requires Upgraded(db, rows, env).Some? && id in rows && id in db.stores && HasLegacy(db.stores[id])
    requires forall i, j :: 0 <= i < j < |rows| ==> rows[i] != rows[j]
    ensures var d, s := Upgraded(db, rows, env).value, db.stores[id];
            var b := BatchOf(s, id, firstId, env);
            id in d.stores && d.stores[id] == s.(settings := Some(
              Relocated(s.settings.value, Shipping(s).value, Shipping(s).value["zones"], |b.zones|, b.unresolved)))
  {
    var init, last := rows[..|rows| - 1], rows[|rows| - 1];
    if id == last {
      assert id !in init;
      UpgradedLeavesOthers(db, init, env, id);
      var s := db.stores[id];
      FirstIdDoesNotMatter(Owner(id, s.tenant), Legacy(s), firstId, Upgraded(db, init, env).value.nextId, env);
    } else {
      assert id in init;
      UpgradedSettings(db, init, env, id, firstId);
    }
  }

  function OfStore(store: nat): ZoneRow -> bool {
    (z: ZoneRow) => z.store == store
  }

  lemma {:induction false} CountNone(zones: seq<ZoneRow>, store: nat)
    requires forall z :: z in zones ==> z.store != store
    ensures Filter(OfStore(store), zones) == []
  {
    if zones != [] {
      CountNone(zones[1..], store);
    }
  }

  lemma {:induction false} CountAll(zones: seq<ZoneRow>, store: nat)
    requires forall z :: z in zones ==> z.store == store
    ensures Filter(OfStore(store), zones) == zones
  {
    if zones != [] {
      CountAll(zones[1..], store);
    }
  }

  /** The zones of the store in the tables are those of its batch. */
  lemma OwnZones(d: Db, store: nat, b: Batch, slot: Slot)
    requires Holds(d, store, b, slot) && forall z :: z in b.zones ==> z.store == store
    ensures Filter(OfStore(store), d.zones) == b.zones
  {
    FilterConcat(OfStore(store), slot.zones0 + b.zones, slot.zones1);
    FilterConcat(OfStore(store), slot.zones0, b.zones);
    CountNone(slot.zones0, store);
    CountAll(b.zones, store);
    CountNone(slot.zones1, store);
    assert [] + b.zones + [] == b.zones;
  }

  function Texts(texts: seq<string>): (r: seq<Json>)
    ensures |r| == |texts| && forall i :: 0 <= i < |r| ==> r[i] == JStr(texts[i])
  {
    seq(|texts|, i requires 0 <= i < |texts| => JStr(texts[i]))
  }

  /** What a converted store is left with: its zones under `_legacy_zones`, a report that counts its zone
      rows in the migrated tables and lists its leftover tokens, and everything else as it was. */
  lemma ReportIsTrue(db: Db, rows: seq<nat>, env: Env, id: nat) returns (after: Fields)
    requires NoRows(db) && Listed(db.stores, rows) && Upgraded(db, rows, env).Some?
    requires id in db.stores && HasLegacy(db.stores[id])
    ensures var d, s := Upgraded(db, rows, env).value, db.stores[id];
            var before, all := Shipping(s).value, AllTokens(Legacy(s), env);
            && id in d.stores
            && d.stores[id] == Store(s.tenant, Some(s.settings.value["shipping" := JObj(after)]))
            && "zones" !in after && "_legacy_zones" in after && "legacy_migration_report" in after
            && after["_legacy_zones"] == before["zones"]
            && after["legacy_migration_report"] == JObj(map[
                 "zones_created" := JNum(|Filter(OfStore(id), d.zones)| as real),
                 "unresolved" := JArr(Texts(Leftovers(all, |all|, {}, env))),
                 "migration_revision" := JStr("migrate_ship_legacy_20260424")])
            && after - {"_legacy_zones", "legacy_migration_report"}
               == before - {"zones", "_legacy_zones", "legacy_migration_report"}
  {
    var d, s := Upgraded(db, rows, env).value, db.stores[id];
    var slot := SlotOf(db, rows, env, id);
    var b := BatchOf(s, id, slot.firstId, env);
    UpgradedSettings(db, rows, env, id, slot.firstId);
    BatchIsWithin(Owner(id, s.tenant), Legacy(s), slot.firstId, env);
    OwnZones(d, id, b, slot);
    StoreIsFirstWins(Owner(id, s.tenant), Legacy(s), slot.firstId, env);
    var before := Shipping(s).value;
    var report := Report(|b.zones|, b.unresolved);
    after := (before["_legacy_zones" := before["zones"]] - {"zones"})["legacy_migration_report" := report];
    KeysDiffer();
    ReportReads(|b.zones|, b.unresolved);
  }

  lemma KeysDiffer()
    ensures "zones" != "_legacy_zones" && "zones" != "legacy_migration_report"
    ensures "_legacy_zones" != "legacy_migration_report"
  {
    assert "zones"[0] == 'z' && "_legacy_zones"[0] == '_' && "legacy_migration_report"[0] == 'l';
  }

  lemma ReportReads(created: nat, unresolved: seq<string>)
    ensures Report(created, unresolved) == JObj(map[
              "zones_created" := JNum(created as real),
              "unresolved" := JArr(Texts(unresolved)),
              "migration_revision" := JStr("migrate_ship_legacy_20260424")])
  {
    assert Texts(unresolved) == seq(|unresolved|, i requires 0 <= i < |unresolved| => JStr(unresolved[i]));
  }
}
