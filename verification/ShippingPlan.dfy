/** What `20260424_migrate_legacy_shipping_zones.py` makes of one store's legacy zones: parsing, the
    first-wins assignment of governorates, the rows and the report, and what they preserve. */
module ShippingPlan {
  import opened Prelude
  import opened PyText

  datatype Json =
    | JNull | JBool(b: bool) | JNum(r: real) | JStr(s: string)
    | JArr(items: seq<Json>) | JObj(fields: map<string, Json>)

  type Fields = map<string, Json>

  /** What `float` makes of a string. NaN counts as unreadable: rounding it is a ValueError, too. */
  datatype Parsed = Finite(r: real) | Infinite | Unreadable

  /** What the migration calls but does not define: the governorate resolver, `str` of a value that is
      not a string, `float` of a string, and which numbers are too large for a float once in piastres. */
  datatype Env = Env(resolve: string -> Option<string>, show: Json -> string, parseFloat: string -> Parsed,
                     tooLarge: real -> bool)

  predicate Truthy(j: Json) {
    match j
    case JNull => false
    case JBool(b) => b
    case JNum(r) => r != 0.0
    case JStr(s) => s != ""
    case JArr(items) => items != []
    case JObj(fields) => fields != map[]
  }

  /** `fields.get(key)` */
  function Get(fields: Fields, key: string): Json {
    if key in fields then fields[key] else JNull
  }

  function Str(j: Json, env: Env): string {
    if j.JStr? then j.s else env.show(j)
  }

  // ---- Parsing -----------------------------------------------------------------------------------

  /** `[str(x) for x in raw if x]` */
  function ListTokens(items: seq<Json>, env: Env): seq<string> {
    if items == [] then []
    else if Truthy(items[0]) then [Str(items[0], env)] + ListTokens(items[1..], env)
    else ListTokens(items[1..], env)
  }

  /** `[t.strip() for t in pieces if t.strip()]` */
  function StrippedTokens(pieces: seq<string>): (r: seq<string>)
    ensures forall t :: t in r ==> t != ""
  {
    if pieces == [] then []
    else if Strip(pieces[0]) == "" then StrippedTokens(pieces[1..])
    else [Strip(pieces[0])] + StrippedTokens(pieces[1..])
  }

  /** `_parse_governorates_field` */
  function ParseGovernorates(raw: Json, env: Env): seq<string> {
    match raw
    case JArr(items) => ListTokens(items, env)
    case JStr(s) => StrippedTokens(Split(s, ','))
    case _ => []
  }

  lemma {:induction false} StripTrims(s: string)
    ensures Strip(s) != "" ==> !IsSpace(Strip(s)[0]) && !IsSpace(Strip(s)[|Strip(s)| - 1])
    ensures forall c :: c in Strip(s) ==> c in s
  {
    StripLeftTrims(s);
    StripRightTrims(StripLeft(s));
  }

  lemma {:induction false} StripLeftTrims(s: string)
    ensures StripLeft(s) != "" ==> !IsSpace(StripLeft(s)[0])
    ensures forall c :: c in StripLeft(s) ==> c in s
  {
    if s != "" && IsSpace(s[0]) {
      StripLeftTrims(s[1..]);
    }
  }

  lemma {:induction false} StripRightTrims(s: string)
    ensures StripRight(s) != "" ==> StripRight(s)[0] == s[0] && !IsSpace(StripRight(s)[|StripRight(s)| - 1])
    ensures StripRight(s) <= s
  {
    if s != "" && IsSpace(s[|s| - 1]) {
      StripRightTrims(s[..|s| - 1]);
    }
  }

  /** A text field yields non-empty tokens without separators or surrounding blanks. */
  lemma {:induction false} TextTokensAreClean(pieces: seq<string>)
    requires forall p :: p in pieces ==> ',' !in p
    ensures forall t :: t in StrippedTokens(pieces) ==>
                          t != "" && ',' !in t && !IsSpace(t[0]) && !IsSpace(t[|t| - 1])
  {
    if pieces != [] {
      StripTrims(pieces[0]);
      assert pieces[0] in pieces;
      TextTokensAreClean(pieces[1..]);
    }
  }

  // ---- Rates and names ---------------------------------------------------------------------------

  /** Python's `round`: to the nearest integer, ties to the even one. */
  function RoundHalfEven(x: real): (n: int)
    ensures -0.5 <= n as real - x <= 0.5
    ensures (n as real - x == 0.5 || n as real - x == -0.5) ==> n % 2 == 0
  {
    var f := x.Floor;
    if x - f as real < 0.5 then f
    else if x - f as real > 0.5 then f + 1
    else if f % 2 == 0 then f else f + 1
  }

  /** `float(rate or 0.0)` when it is a number, `None` for a TypeError or ValueError. */
  function FloatOf(rate: Json, env: Env): Option<real> {
    if !Truthy(rate) then Some(0.0)
    else match rate
         case JNum(r) => Some(r)
         case JBool(_) => Some(1.0)
         case JStr(s) => (match env.parseFloat(s) case Finite(r) => Some(r) case _ => None)
         case _ => None
  }

  /** Rounding the rate raises an OverflowError, which the migration does not catch. */
  predicate Overflows(rate: Json, env: Env) {
    || (rate.JStr? && Truthy(rate) && env.parseFloat(rate.s) == Infinite)
    || (Truthy(rate) && FloatOf(rate, env).Some? && env.tooLarge(FloatOf(rate, env).value))
  }

  /** The flat rate in piastres: rounded, zero when unreadable, never negative. */
  function AmountCents(rate: Json, env: Env): (n: int)
    ensures n >= 0
    ensures FloatOf(rate, env).None? || FloatOf(rate, env).value <= 0.0 ==> n == 0
    ensures FloatOf(rate, env).Some? && FloatOf(rate, env).value > 0.0
            ==> var cents := FloatOf(rate, env).value * 100.0;
                && -0.5 <= n as real - cents <= 0.5
                && (n as real - cents == 0.5 || n as real - cents == -0.5 ==> n % 2 == 0)
  {
    var cents := match FloatOf(rate, env)
                 case Some(r) => RoundHalfEven(r * 100.0)
                 case None => 0;
    if cents < 0 then 0 else cents
  }

  /** The zone's own name when it has one that is not blank, else its position; cut to 100 characters. */
  function ZoneName(legacy: Fields, idx: nat, env: Env): (name: string)
    ensures var zone := Get(legacy, "zone");
            var whole := if Truthy(zone) && Strip(Str(zone, env)) != "" then Strip(Str(zone, env))
                         else "Zone " + Digits(idx + 1);
            && name <= whole && |name| <= 100 && name != ""
            && (|name| < 100 ==> name == whole)
  {
    var fallback := "Zone " + Digits(idx + 1);
    var given := Strip(if Truthy(Get(legacy, "zone")) then Str(Get(legacy, "zone"), env) else fallback);
    var name := if given == "" then fallback else given;
    if |name| <= 100 then name else name[..100]
  }

  // ---- Assignment --------------------------------------------------------------------------------

  const DUPLICATE_TAG := " (duplicate \U{2192} already assigned)"

  /** One zone's tokens sorted into new codes and leftovers. */
  datatype Sifted = Sifted(codes: seq<string>, unresolved: seq<string>, taken: set<string>)

  function SiftToken(s: Sifted, token: string, env: Env): Sifted {
    match env.resolve(token)
    case None => s.(unresolved := s.unresolved + [token])
    case Some(code) =>
      if code in s.taken then s.(unresolved := s.unresolved + [token + DUPLICATE_TAG])
      else s.(codes := s.codes + [code], taken := s.taken + {code})
  }

  function Sift(tokens: seq<string>, taken: set<string>, env: Env): Sifted {
    if tokens == [] then Sifted([], [], taken)
    else SiftToken(Sift(tokens[..|tokens| - 1], taken, env), tokens[|tokens| - 1], env)
  }

  predicate Resolves(tokens: seq<string>, code: string, env: Env) {
    exists t :: t in tokens && env.resolve(t) == Some(code)
  }

  predicate AllDistinct(codes: seq<string>) {
    forall i, j :: 0 <= i < j < |codes| ==> codes[i] != codes[j]
  }

  /** A zone gets exactly the codes its tokens resolve to and no earlier zone took, each once; every
      token ends up as a code or as a leftover. */
  lemma {:induction false} SiftMeans(tokens: seq<string>, taken: set<string>, env: Env)
    ensures var s := Sift(tokens, taken, env);
            && |tokens| == |s.codes| + |s.unresolved|
            && (forall c :: c in s.codes <==> c !in taken && Resolves(tokens, c, env))
            && (forall c :: c in s.taken <==> c in taken || Resolves(tokens, c, env))
            && AllDistinct(s.codes)
  {
    if tokens != [] {
      var init, last := tokens[..|tokens| - 1], tokens[|tokens| - 1];
      SiftMeans(init, taken, env);
      assert tokens == init + [last];
      forall c ensures Resolves(tokens, c, env) <==> Resolves(init, c, env) || env.resolve(last) == Some(c) {
        if Resolves(init, c, env) {
          var t :| t in init && env.resolve(t) == Some(c);
          assert t in tokens;
        }
        assert last in tokens;
      }
    }
  }

  // ---- Rows --------------------------------------------------------------------------------------

  datatype ZoneRow = ZoneRow(id: nat, tenant: nat, store: nat, name: string, daysMin: int, daysMax: int,
                             codEnabled: bool, codFeeCents: int, isActive: bool, sortOrder: nat)
  datatype GovernorateRow = GovernorateRow(zone: nat, code: string, tenant: nat, store: nat)
  datatype RateRow = RateRow(id: nat, tenant: nat, zone: nat, rateType: string, lbl: string, amountCents: int,
                             isActive: bool, sortOrder: nat)

  datatype Owner = Owner(store: nat, tenant: nat)

  function NewZone(owner: Owner, id: nat, legacy: Fields, idx: nat, env: Env): ZoneRow {
    ZoneRow(id, owner.tenant, owner.store, ZoneName(legacy, idx, env), 2, 5, true, 0, true, idx)
  }

  function NewRate(owner: Owner, id: nat, zone: nat, legacy: Fields, env: Env): RateRow {
    RateRow(id, owner.tenant, zone, "flat", "Standard", AmountCents(Get(legacy, "rate"), env), true, 0)
  }

  function NewGovernorates(owner: Owner, zone: nat, codes: seq<string>): (r: seq<GovernorateRow>)
    ensures |r| == |codes|
    ensures forall i :: 0 <= i < |r| ==> r[i] == GovernorateRow(zone, codes[i], owner.tenant, owner.store)
  {
    seq(|codes|, i requires 0 <= i < |codes| => GovernorateRow(zone, codes[i], owner.tenant, owner.store))
  }

  /** The rows one store adds, what is left over, and the next free row id. */
  datatype Batch = Batch(zones: seq<ZoneRow>, governorates: seq<GovernorateRow>, rates: seq<RateRow>,
                         unresolved: seq<string>, taken: set<string>, nextId: nat)

  function Tokens(legacy: Fields, env: Env): seq<string> {
    ParseGovernorates(Get(legacy, "governorates"), env)
  }

  function AddZone(b: Batch, owner: Owner, legacy: Fields, idx: nat, env: Env): Batch {
    var s := Sift(Tokens(legacy, env), b.taken, env);
    if s.codes == [] then b.(unresolved := b.unresolved + s.unresolved, taken := s.taken)
    else Batch(b.zones + [NewZone(owner, b.nextId, legacy, idx, env)],
               b.governorates + NewGovernorates(owner, b.nextId, s.codes),
               b.rates + [NewRate(owner, b.nextId + 1, b.nextId, legacy, env)],
               b.unresolved + s.unresolved, s.taken, b.nextId + 2)
  }

  function Migrated(owner: Owner, legacy: seq<Fields>, firstId: nat, env: Env): Batch {
    if legacy == [] then Batch([], [], [], [], {}, firstId)
    else
      var n := |legacy| - 1;
      AddZone(Migrated(owner, legacy[..n], firstId, env), owner, legacy[n], n, env)
  }

  // ---- What the rows mean ------------------------------------------------------------------------

  /** The earliest legacy zone with a token that resolves to the code. */
  function FirstZone(legacy: seq<Fields>, code: string, env: Env): (r: Option<nat>)
    ensures r.None? <==> forall i :: 0 <= i < |legacy| ==> !Resolves(Tokens(legacy[i], env), code, env)
    ensures r.Some? ==> r.value < |legacy| && Resolves(Tokens(legacy[r.value], env), code, env)
    ensures r.Some? ==> forall i :: 0 <= i < r.value ==> !Resolves(Tokens(legacy[i], env), code, env)
  {
    if legacy == [] then None
    else
      var n := |legacy| - 1;
      var earlier := FirstZone(legacy[..n], code, env);
      if earlier.Some? then earlier
      else if Resolves(Tokens(legacy[n], env), code, env) then Some(n) else None
  }

  function TokenCount(legacy: seq<Fields>, env: Env): nat {
    if legacy == [] then 0
    else TokenCount(legacy[..|legacy| - 1], env) + |Tokens(legacy[|legacy| - 1], env)|
  }

  /** The zone and its rate are made from the legacy zone that the sort order names. */
  ghost predicate ZoneMatches(z: ZoneRow, r: RateRow, owner: Owner, legacy: seq<Fields>, id: nat, env: Env) {
    && z.sortOrder < |legacy|
    && z == NewZone(owner, id, legacy[z.sortOrder], z.sortOrder, env)
    && r == NewRate(owner, id + 1, id, legacy[z.sortOrder], env)
  }

  /** Zone `k` of the batch is made from the legacy zone its sort order names, and its one rate sits beside it. */
  ghost predicate ZonesMatch(b: Batch, owner: Owner, legacy: seq<Fields>, firstId: nat, env: Env) {
    && |b.rates| == |b.zones|
    && b.nextId == firstId + 2 * |b.zones|
    && (forall k :: 0 <= k < |b.zones| ==> ZoneMatches(b.zones[k], b.rates[k], owner, legacy, firstId + 2 * k, env))
    && (forall j, k :: 0 <= j < k < |b.zones| ==> b.zones[j].sortOrder < b.zones[k].sortOrder)
  }

  /** Governorate row `g` links its code to the zone made from the earliest legacy zone that names it. */
  ghost predicate LinksFirst(g: GovernorateRow, b: Batch, owner: Owner, legacy: seq<Fields>, env: Env) {
    && g.tenant == owner.tenant && g.store == owner.store
    && FirstZone(legacy, g.code, env).Some?
    && exists z :: z in b.zones && z.id == g.zone && z.sortOrder == FirstZone(legacy, g.code, env).value
  }

  ghost predicate TakenAreNamed(b: Batch, legacy: seq<Fields>, env: Env) {
    forall c :: c in b.taken <==> FirstZone(legacy, c, env).Some?
  }

  ghost predicate TakenAreLinked(b: Batch) {
    forall c :: c in b.taken <==> exists g :: g in b.governorates && g.code == c
  }

  predicate CodesDistinct(gs: seq<GovernorateRow>) {
    forall i, j :: 0 <= i < j < |gs| ==> gs[i].code != gs[j].code
  }

  ghost predicate AllLinkFirst(b: Batch, owner: Owner, legacy: seq<Fields>, env: Env) {
    forall g :: g in b.governorates ==> LinksFirst(g, b, owner, legacy, env)
  }

  ghost predicate NoZoneIsEmpty(b: Batch) {
    forall z :: z in b.zones ==> exists g :: g in b.governorates && g.zone == z.id
  }

  ghost predicate CodesMatch(b: Batch, owner: Owner, legacy: seq<Fields>, env: Env) {
    && TakenAreNamed(b, legacy, env)
    && TakenAreLinked(b)
    && CodesDistinct(b.governorates)
    && AllLinkFirst(b, owner, legacy, env)
    && NoZoneIsEmpty(b)
  }

  lemma FirstZoneGrows(legacy: seq<Fields>, code: string, env: Env)
    requires legacy != []
    ensures var n := |legacy| - 1;
            FirstZone(legacy, code, env) ==
            if FirstZone(legacy[..n], code, env).Some? then FirstZone(legacy[..n], code, env)
            else if Resolves(Tokens(legacy[n], env), code, env) then Some(n) else None
  {
  }

  /** What matched a prefix of the legacy zones matches all of them. */
  lemma ZoneStillMatches(z: ZoneRow, r: RateRow, owner: Owner, legacy: seq<Fields>, n: nat, id: nat, env: Env)
    requires n <= |legacy| && ZoneMatches(z, r, owner, legacy[..n], id, env)
    ensures ZoneMatches(z, r, owner, legacy, id, env) && z.sortOrder < n
  {
    assert legacy[..n][z.sortOrder] == legacy[z.sortOrder];
  }

  lemma ZonesMatchLonger(b: Batch, owner: Owner, legacy: seq<Fields>, n: nat, firstId: nat, env: Env)
    requires n <= |legacy| && ZonesMatch(b, owner, legacy[..n], firstId, env)
    ensures ZonesMatch(b, owner, legacy, firstId, env)
    ensures forall k :: 0 <= k < |b.zones| ==> b.zones[k].sortOrder < n
  {
    forall k | 0 <= k < |b.zones|
      ensures ZoneMatches(b.zones[k], b.rates[k], owner, legacy, firstId + 2 * k, env) && b.zones[k].sortOrder < n
    {
      ZoneStillMatches(b.zones[k], b.rates[k], owner, legacy, n, firstId + 2 * k, env);
    }
  }

  lemma ZonesMatchAppend(b: Batch, z: ZoneRow, r: RateRow, owner: Owner, legacy: seq<Fields>, firstId: nat, env: Env)
    requires ZonesMatch(b, owner, legacy, firstId, env) && ZoneMatches(z, r, owner, legacy, b.nextId, env)
    requires forall k :: 0 <= k < |b.zones| ==> b.zones[k].sortOrder < z.sortOrder
    ensures ZonesMatch(b.(zones := b.zones + [z], rates := b.rates + [r], nextId := b.nextId + 2),
                       owner, legacy, firstId, env)
  {
  }

  lemma ZonesMatchStep(b: Batch, owner: Owner, legacy: seq<Fields>, firstId: nat, env: Env)
    requires legacy != [] && ZonesMatch(b, owner, legacy[..|legacy| - 1], firstId, env)
    ensures ZonesMatch(AddZone(b, owner, legacy[|legacy| - 1], |legacy| - 1, env), owner, legacy, firstId, env)
  {
    var n := |legacy| - 1;
    ZonesMatchLonger(b, owner, legacy, n, firstId, env);
    var z, r := NewZone(owner, b.nextId, legacy[n], n, env), NewRate(owner, b.nextId + 1, b.nextId, legacy[n], env);
    ZonesMatchAppend(b, z, r, owner, legacy, firstId, env);
  }

  lemma {:induction false} ZonesMatchMigrated(owner: Owner, legacy: seq<Fields>, firstId: nat, env: Env)
    ensures ZonesMatch(Migrated(owner, legacy, firstId, env), owner, legacy, firstId, env)
  {
    if legacy != [] {
      var n := |legacy| - 1;
      ZonesMatchMigrated(owner, legacy[..n], firstId, env);
      ZonesMatchStep(Migrated(owner, legacy[..n], firstId, env), owner, legacy, firstId, env);
    }
  }

  /** Every token of the store ends up as one governorate row or one leftover of the report. */
  lemma {:induction false} TokensAreConserved(owner: Owner, legacy: seq<Fields>, firstId: nat, env: Env)
    ensures var b := Migrated(owner, legacy, firstId, env);
            TokenCount(legacy, env) == |b.governorates| + |b.unresolved|
  {
    if legacy != [] {
      var n := |legacy| - 1;
      TokensAreConserved(owner, legacy[..n], firstId, env);
      SiftMeans(Tokens(legacy[n], env), Migrated(owner, legacy[..n], firstId, env).taken, env);
    }
  }

  lemma {:induction false} CodesMatchMigrated(owner: Owner, legacy: seq<Fields>, firstId: nat, env: Env)
    ensures CodesMatch(Migrated(owner, legacy, firstId, env), owner, legacy, env)
  {
    if legacy != [] {
      var n := |legacy| - 1;
      CodesMatchMigrated(owner, legacy[..n], firstId, env);
      CodesMatchStep(owner, legacy, Migrated(owner, legacy[..n], firstId, env), env);
    }
  }

  /** The governorate rows that one zone adds. */
  function Added(before: Batch, owner: Owner, legacy: Fields, env: Env): seq<GovernorateRow> {
    NewGovernorates(owner, before.nextId, Sift(Tokens(legacy, env), before.taken, env).codes)
  }

  lemma AddZoneAdds(before: Batch, owner: Owner, legacy: Fields, idx: nat, env: Env)
    ensures var after, added := AddZone(before, owner, legacy, idx, env), Added(before, owner, legacy, env);
            && after.governorates == before.governorates + added
            && after.zones
               == before.zones + (if added == [] then [] else [NewZone(owner, before.nextId, legacy, idx, env)])
            && (forall g :: g in added
                            ==> g.zone == before.nextId && g.tenant == owner.tenant && g.store == owner.store)
            && (forall g :: g in added ==> g.code !in before.taken && Resolves(Tokens(legacy, env), g.code, env))
            && (forall c :: c !in before.taken && Resolves(Tokens(legacy, env), c, env)
                            ==> exists g :: g in added && g.code == c)
            && (forall c :: c in after.taken <==> c in before.taken || Resolves(Tokens(legacy, env), c, env))
            && CodesDistinct(added)
  {
    var s := Sift(Tokens(legacy, env), before.taken, env);
    var added := Added(before, owner, legacy, env);
    SiftMeans(Tokens(legacy, env), before.taken, env);
    if s.codes == [] {
      assert before.governorates + added == before.governorates;
    }
    forall c | c in s.codes ensures exists g :: g in added && g.code == c {
      var i :| 0 <= i < |s.codes| && s.codes[i] == c;
      assert added[i] in added && added[i].code == c;
    }
  }

  lemma NamedAfterZone(owner: Owner, legacy: seq<Fields>, before: Batch, env: Env)
    requires legacy != [] && CodesMatch(before, owner, legacy[..|legacy| - 1], env)
    ensures TakenAreNamed(AddZone(before, owner, legacy[|legacy| - 1], |legacy| - 1, env), legacy, env)
  {
    var n := |legacy| - 1;
    var after, added := AddZone(before, owner, legacy[n], n, env), Added(before, owner, legacy[n], env);
    AddZoneAdds(before, owner, legacy[n], n, env);
    NamedStep(legacy, before, after, env);
  }

  lemma LinkedAfterZone(owner: Owner, legacy: seq<Fields>, before: Batch, env: Env)
    requires legacy != [] && CodesMatch(before, owner, legacy[..|legacy| - 1], env)
    ensures TakenAreLinked(AddZone(before, owner, legacy[|legacy| - 1], |legacy| - 1, env))
  {
    var n := |legacy| - 1;
    var after, added := AddZone(before, owner, legacy[n], n, env), Added(before, owner, legacy[n], env);
    AddZoneAdds(before, owner, legacy[n], n, env);
    LinkedStep(before, after, added);
  }

  lemma DistinctAfterZone(owner: Owner, legacy: seq<Fields>, before: Batch, env: Env)
    requires legacy != [] && CodesMatch(before, owner, legacy[..|legacy| - 1], env)
    ensures CodesDistinct(AddZone(before, owner, legacy[|legacy| - 1], |legacy| - 1, env).governorates)
  {
    var n := |legacy| - 1;
    var after, added := AddZone(before, owner, legacy[n], n, env), Added(before, owner, legacy[n], env);
    AddZoneAdds(before, owner, legacy[n], n, env);
    DistinctStep(before, after, added);
  }

  lemma FirstAfterZone(owner: Owner, legacy: seq<Fields>, before: Batch, env: Env)
    requires legacy != [] && CodesMatch(before, owner, legacy[..|legacy| - 1], env)
    ensures AllLinkFirst(AddZone(before, owner, legacy[|legacy| - 1], |legacy| - 1, env), owner, legacy, env)
  {
    var n := |legacy| - 1;
    var after, added := AddZone(before, owner, legacy[n], n, env), Added(before, owner, legacy[n], env);
    AddZoneAdds(before, owner, legacy[n], n, env);
    FirstStep(owner, legacy, before, after, added, NewZone(owner, before.nextId, legacy[n], n, env), env);
  }

  lemma NonEmptyAfterZone(owner: Owner, legacy: seq<Fields>, before: Batch, env: Env)
    requires legacy != [] && CodesMatch(before, owner, legacy[..|legacy| - 1], env)
    ensures NoZoneIsEmpty(AddZone(before, owner, legacy[|legacy| - 1], |legacy| - 1, env))
  {
    var n := |legacy| - 1;
    var after, added := AddZone(before, owner, legacy[n], n, env), Added(before, owner, legacy[n], env);
    AddZoneAdds(before, owner, legacy[n], n, env);
    NonEmptyStep(before, after, added, NewZone(owner, before.nextId, legacy[n], n, env));
  }

  lemma CodesMatchStep(owner: Owner, legacy: seq<Fields>, before: Batch, env: Env)
    requires legacy != [] && CodesMatch(before, owner, legacy[..|legacy| - 1], env)
    ensures CodesMatch(AddZone(before, owner, legacy[|legacy| - 1], |legacy| - 1, env), owner, legacy, env)
  {
    NamedAfterZone(owner, legacy, before, env);
    LinkedAfterZone(owner, legacy, before, env);
    DistinctAfterZone(owner, legacy, before, env);
    FirstAfterZone(owner, legacy, before, env);
    NonEmptyAfterZone(owner, legacy, before, env);
  }

  lemma NamedStep(legacy: seq<Fields>, before: Batch, after: Batch, env: Env)
    requires legacy != [] && TakenAreNamed(before, legacy[..|legacy| - 1], env)
    requires forall c :: c in after.taken <==> c in before.taken || Resolves(Tokens(legacy[|legacy| - 1], env), c, env)
    ensures TakenAreNamed(after, legacy, env)
  {
    forall c ensures c in after.taken <==> FirstZone(legacy, c, env).Some? {
      FirstZoneGrows(legacy, c, env);
    }
  }

  lemma LinkedStep(before: Batch, after: Batch, added: seq<GovernorateRow>)
    requires TakenAreLinked(before) && after.governorates == before.governorates + added
    requires forall c :: c in after.taken <==> c in before.taken || exists g :: g in added && g.code == c
    ensures TakenAreLinked(after)
  {
    forall c | c in after.taken ensures exists g :: g in after.governorates && g.code == c {
      if c in before.taken {
        var g :| g in before.governorates && g.code == c;
        assert g in after.governorates;
      } else {
        var g :| g in added && g.code == c;
        assert g in after.governorates;
      }
    }
  }

  lemma DistinctStep(before: Batch, after: Batch, added: seq<GovernorateRow>)
    requires TakenAreLinked(before) && CodesDistinct(before.governorates) && CodesDistinct(added)
    requires after.governorates == before.governorates + added
    requires forall g :: g in added ==> g.code !in before.taken
    ensures CodesDistinct(after.governorates)
  {
    var gs, m := after.governorates, |before.governorates|;
    forall i, j | 0 <= i < j < |gs| ensures gs[i].code != gs[j].code {
      if i < m <= j {
        assert before.governorates[i] in before.governorates && added[j - m] in added;
        assert before.governorates[i].code in before.taken;
      } else if m <= i {
        assert gs[i] == added[i - m] && gs[j] == added[j - m];
      }
    }
  }

  lemma KeptLink(owner: Owner, legacy: seq<Fields>, before: Batch, after: Batch, env: Env, g: GovernorateRow)
    requires legacy != [] && LinksFirst(g, before, owner, legacy[..|legacy| - 1], env)
    requires forall z :: z in before.zones ==> z in after.zones
    ensures LinksFirst(g, after, owner, legacy, env)
  {
    FirstZoneGrows(legacy, g.code, env);
    var z :| z in before.zones && z.id == g.zone && z.sortOrder == FirstZone(legacy[..|legacy| - 1], g.code, env).value;
    assert z in after.zones;
  }

  lemma NewLink(owner: Owner, legacy: seq<Fields>, after: Batch, env: Env, g: GovernorateRow, zone: ZoneRow)
    requires legacy != [] && FirstZone(legacy[..|legacy| - 1], g.code, env).None?
    requires Resolves(Tokens(legacy[|legacy| - 1], env), g.code, env)
    requires g.tenant == owner.tenant && g.store == owner.store
    requires zone in after.zones && zone.id == g.zone && zone.sortOrder == |legacy| - 1
    ensures LinksFirst(g, after, owner, legacy, env)
  {
    FirstZoneGrows(legacy, g.code, env);
  }

  lemma FirstStep(owner: Owner, legacy: seq<Fields>, before: Batch, after: Batch, added: seq<GovernorateRow>,
                  zone: ZoneRow, env: Env)
    requires legacy != [] && TakenAreNamed(before, legacy[..|legacy| - 1], env)
    requires AllLinkFirst(before, owner, legacy[..|legacy| - 1], env)
    requires after.governorates == before.governorates + added
    requires after.zones == before.zones + if added == [] then [] else [zone]
    requires zone.sortOrder == |legacy| - 1
    requires forall g :: g in added ==>
                           && g.zone == zone.id && g.tenant == owner.tenant && g.store == owner.store
                           && g.code !in before.taken && Resolves(Tokens(legacy[|legacy| - 1], env), g.code, env)
    ensures AllLinkFirst(after, owner, legacy, env)
  {
    forall g | g in after.governorates ensures LinksFirst(g, after, owner, legacy, env) {
      if g in before.governorates {
        KeptLink(owner, legacy, before, after, env, g);
      } else {
        NewLink(owner, legacy, after, env, g, zone);
      }
    }
  }

  lemma NonEmptyStep(before: Batch, after: Batch, added: seq<GovernorateRow>, zone: ZoneRow)
    requires NoZoneIsEmpty(before) && after.governorates == before.governorates + added
    requires after.zones == before.zones + if added == [] then [] else [zone]
    requires forall g :: g in added ==> g.zone == zone.id
    ensures NoZoneIsEmpty(after)
  {
    forall z | z in after.zones ensures exists g :: g in after.governorates && g.zone == z.id {
      if z in before.zones {
        var g :| g in before.governorates && g.zone == z.id;
        assert g in after.governorates;
      } else {
        assert added[0] in added && added[0] in after.governorates;
      }
    }
  }

  ghost predicate Unlinked(gs: seq<GovernorateRow>, code: string) {
    forall g :: g in gs ==> g.code != code
  }

  ghost predicate Unnamed(legacy: seq<Fields>, env: Env, code: string) {
    forall i :: 0 <= i < |legacy| ==> !Resolves(Tokens(legacy[i], env), code, env)
  }

  /** A code is left without a governorate row exactly when no legacy token resolves to it. */
  lemma UncoveredExactly(owner: Owner, legacy: seq<Fields>, firstId: nat, env: Env, code: string)
    ensures Unlinked(Migrated(owner, legacy, firstId, env).governorates, code) <==> Unnamed(legacy, env, code)
  {
    CodesMatchMigrated(owner, legacy, firstId, env);
    LinkedExactly(Migrated(owner, legacy, firstId, env), code);
    NamedExactly(Migrated(owner, legacy, firstId, env), legacy, env, code);
  }

  lemma LinkedExactly(b: Batch, code: string)
    requires TakenAreLinked(b)
    ensures code !in b.taken <==> Unlinked(b.governorates, code)
  {
  }

  lemma NamedExactly(b: Batch, legacy: seq<Fields>, env: Env, code: string)
    requires TakenAreNamed(b, legacy, env)
    ensures code !in b.taken <==> Unnamed(legacy, env, code)
  {
    assert code in b.taken <==> FirstZone(legacy, code, env).Some?;
  }

  /** A covered code has one governorate row `i`, in the zone made from the earliest legacy zone that
      names it, and that zone has one rate `k`: the legacy rate rounded to the piastre, never negative. */
  lemma CoveredByFirstZone(owner: Owner, legacy: seq<Fields>, firstId: nat, env: Env, code: string)
    returns (i: nat, k: nat)
    requires FirstZone(legacy, code, env).Some?
    ensures var b, first := Migrated(owner, legacy, firstId, env), FirstZone(legacy, code, env).value;
            && i < |b.governorates| && k < |b.zones| == |b.rates|
            && b.governorates[i] == GovernorateRow(b.zones[k].id, code, owner.tenant, owner.store)
            && (forall j :: 0 <= j < |b.governorates| && b.governorates[j].code == code ==> j == i)
            && b.zones[k] == ZoneRow(b.zones[k].id, owner.tenant, owner.store, ZoneName(legacy[first], first, env),
                                     2, 5, true, 0, true, first)
            && (forall j :: 0 <= j < |b.zones| && b.zones[j].id == b.zones[k].id ==> j == k)
            && b.rates[k] == RateRow(b.rates[k].id, owner.tenant, b.zones[k].id, "flat", "Standard",
                                     AmountCents(Get(legacy[first], "rate"), env), true, 0)
            && (forall j :: 0 <= j < |b.rates| && b.rates[j].zone == b.zones[k].id ==> j == k)
  {
    var b := Migrated(owner, legacy, firstId, env);
    CodesMatchMigrated(owner, legacy, firstId, env);
    ZonesMatchMigrated(owner, legacy, firstId, env);
    var first := FirstZone(legacy, code, env).value;
    forall g | g in b.governorates && g.code == code ensures LinksTo(g, b, owner, first) {
      assert LinksFirst(g, b, owner, legacy, env);
    }
    i, k := LinkedZone(b, owner, code, first);
    ZoneAt(b, owner, legacy, firstId, env, k);
  }

  /** The row is in the zone with the given sort order. */
  ghost predicate LinksTo(g: GovernorateRow, b: Batch, owner: Owner, first: nat) {
    && g.tenant == owner.tenant && g.store == owner.store
    && exists z :: z in b.zones && z.id == g.zone && z.sortOrder == first
  }

  lemma LinkedZone(b: Batch, owner: Owner, code: string, first: nat) returns (i: nat, k: nat)
    requires TakenAreLinked(b) && CodesDistinct(b.governorates) && code in b.taken
    requires forall g :: g in b.governorates && g.code == code ==> LinksTo(g, b, owner, first)
    ensures i < |b.governorates| && k < |b.zones|
    ensures b.governorates[i] == GovernorateRow(b.zones[k].id, code, owner.tenant, owner.store)
    ensures forall j :: 0 <= j < |b.governorates| && b.governorates[j].code == code ==> j == i
    ensures b.zones[k].sortOrder == first
  {
    var g: GovernorateRow;
    i, g := RowOf(b, code);
    var z :| z in b.zones && z.id == g.zone && z.sortOrder == first;
    k :| 0 <= k < |b.zones| && b.zones[k] == z;
  }

  lemma ZoneAt(b: Batch, owner: Owner, legacy: seq<Fields>, firstId: nat, env: Env, k: nat)
    requires ZonesMatch(b, owner, legacy, firstId, env) && k < |b.zones|
    ensures |b.rates| == |b.zones| && b.zones[k].sortOrder < |legacy|
    ensures var origin := b.zones[k].sortOrder;
            && b.zones[k] == NewZone(owner, b.zones[k].id, legacy[origin], origin, env)
            && b.rates[k] == NewRate(owner, b.rates[k].id, b.zones[k].id, legacy[origin], env)
    ensures forall j :: 0 <= j < |b.zones| && b.zones[j].id == b.zones[k].id ==> j == k
    ensures forall j :: 0 <= j < |b.rates| && b.rates[j].zone == b.zones[k].id ==> j == k
  {
  }

  lemma RowOf(b: Batch, code: string) returns (i: nat, g: GovernorateRow)
    requires TakenAreLinked(b) && CodesDistinct(b.governorates) && code in b.taken
    ensures i < |b.governorates| && b.governorates[i] == g && g in b.governorates && g.code == code
    ensures forall j :: 0 <= j < |b.governorates| && b.governorates[j].code == code ==> j == i
  {
    g :| g in b.governorates && g.code == code;
    i :| 0 <= i < |b.governorates| && b.governorates[i] == g;
  }
}
