/** Row-level security as `20260203_add_rls_policies.py` sets it up: session variables, the policies as
    data, the way PostgreSQL 15 combines them (section 5.8, "Row Security Policies"), and statements. */
module RowSecurity {
  import opened Prelude
  import opened PyText

  type Tenant = nat

  // ---- Session variables -------------------------------------------------------------------------

  /** How PostgreSQL reads and writes UUIDs and booleans. */
  datatype Codec = Codec(parseUuid: string -> Option<Tenant>, uuidText: Tenant -> string,
                         parseBool: string -> Option<bool>)

  ghost predicate SoundCodec(codec: Codec) {
    forall t: Tenant :: codec.uuidText(t) != "" && codec.parseUuid(codec.uuidText(t)) == Some(t)
  }

  /** Values kept by the connection, and those set by `set_config(..., true)` that hide them until the
      transaction ends. */
  datatype Variables = Variables(session: map<string, string>, local: map<string, string>)

  const CURRENT_TENANT := "app.current_tenant"
  const RLS_BYPASS := "app.rls_bypass"

  function CurrentSetting(v: Variables, name: string): Option<string> {
    if name in v.local then Some(v.local[name])
    else if name in v.session then Some(v.session[name])
    else None
  }

  /** `get_current_tenant_id()`: unset, empty and malformed values all read as NULL. */
  function CurrentTenantId(v: Variables, codec: Codec): Option<Tenant> {
    match CurrentSetting(v, CURRENT_TENANT)
    case None => None
    case Some(s) => if s == "" then None else codec.parseUuid(s)
  }

  /** `is_rls_bypassed()`: unset, empty and malformed values all read as false. */
  function IsRlsBypassed(v: Variables, codec: Codec): bool {
    match CurrentSetting(v, RLS_BYPASS)
    case None => false
    case Some(s) => s != "" && codec.parseBool(s) == Some(true)
  }

  /** PostgreSQL compares setting names without regard to ASCII case. */
  function SetLocal(v: Variables, name: string, value: string): Variables {
    v.(local := v.local[Lower(name) := value])
  }

  /** The two names are different and in lower case. */
  lemma SettingNames()
    ensures CURRENT_TENANT != RLS_BYPASS
    ensures Lower(CURRENT_TENANT) == CURRENT_TENANT && Lower(RLS_BYPASS) == RLS_BYPASS
  {
    assert CURRENT_TENANT[4] != RLS_BYPASS[4];
    assert forall i :: 0 <= i < |CURRENT_TENANT| ==> !('A' <= CURRENT_TENANT[i] <= 'Z');
    assert forall i :: 0 <= i < |RLS_BYPASS| ==> !('A' <= RLS_BYPASS[i] <= 'Z');
  }

  /** At the end of a transaction local values are gone. A variable that never had a session value is
      either unset again (`forgotten`) or left behind as an empty string. */
  function EndTransaction(v: Variables, forgotten: set<string>): Variables {
    Variables(v.session + map n | n in v.local && n !in v.session && n !in forgotten :: "", map[])
  }

  class Connection {
    const codec: Codec
    var variables: Variables

    constructor (codec: Codec)
      ensures this.codec == codec && variables == Variables(map[], map[])
    {
      this.codec := codec;
      variables := Variables(map[], map[]);
    }

    method SetConfigLocal(name: string, value: string)
      modifies this`variables
      ensures variables == SetLocal(old(variables), name, value)
    {
      variables := variables.(local := variables.local[Lower(name) := value]);
    }

    /** `set_tenant_context`. */
    method SetTenantContext(tenant: Tenant)
      requires SoundCodec(codec)
      modifies this`variables
      ensures variables == SetLocal(old(variables), CURRENT_TENANT, codec.uuidText(tenant))
      ensures CurrentTenantId(variables, codec) == Some(tenant)
      ensures IsRlsBypassed(variables, codec) == old(IsRlsBypassed(variables, codec))
    {
      SetConfigLocal(CURRENT_TENANT, codec.uuidText(tenant));
      SettingNames();
    }

    /** `clear_tenant_context`. */
    method ClearTenantContext()
      modifies this`variables
      ensures variables == SetLocal(old(variables), CURRENT_TENANT, "")
      ensures CurrentTenantId(variables, codec) == None
      ensures IsRlsBypassed(variables, codec) == old(IsRlsBypassed(variables, codec))
    {
      SetConfigLocal(CURRENT_TENANT, "");
      SettingNames();
    }

    method Finish(forgotten: set<string>)
      modifies this`variables
      ensures variables == EndTransaction(old(variables), forgotten)
    {
      var left := map n | n in variables.local && n !in variables.session && n !in forgotten :: "";
      variables := Variables(variables.session + left, map[]);
    }
  }

  // ---- Policies ----------------------------------------------------------------------------------

  datatype Row = Row(tenant: Option<Tenant>, data: map<string, string>)

  datatype Command = CmdSelect | CmdInsert | CmdUpdate | CmdDelete
  datatype Scope = ForAll | For(command: Command)
  datatype Condition = TenantIsCurrent | BypassIsOn
  datatype Policy = Policy(name: string, scope: Scope, using: Option<Condition>, check: Option<Condition>)

  /** `forced` subjects the table's owner too. */
  datatype Security = Security(enabled: bool, forced: bool, policies: seq<Policy>)

  /** What the policy functions see while a statement runs. */
  datatype Context = Context(tenant: Option<Tenant>, bypass: bool)

  function ContextOf(v: Variables, codec: Codec): Context {
    Context(CurrentTenantId(v, codec), IsRlsBypassed(v, codec))
  }

  /** A comparison with NULL is not true. */
  predicate Holds(c: Condition, ctx: Context, row: Row) {
    match c
    case TenantIsCurrent => row.tenant.Some? && ctx.tenant.Some? && row.tenant.value == ctx.tenant.value
    case BypassIsOn => ctx.bypass
  }

  predicate Applies(p: Policy, command: Command) {
    p.scope == ForAll || p.scope == For(command)
  }

  /** Permissive policies are OR-ed; with no applicable policy nothing passes. */
  predicate PassesUsing(policies: seq<Policy>, command: Command, ctx: Context, row: Row) {
    exists p :: p in policies && Applies(p, command) && p.using.Some? && Holds(p.using.value, ctx, row)
  }

  /** Without `WITH CHECK` a policy's `USING` is checked on new rows. */
  predicate PassesCheck(policies: seq<Policy>, command: Command, ctx: Context, row: Row) {
    exists p :: p in policies && Applies(p, command) &&
                var c := if p.check.Some? then p.check else p.using;
                c.Some? && Holds(c.value, ctx, row)
  }

  /** Whether a role that is not a superuser is subject to the table's policies. */
  predicate Subject(security: Security, isOwner: bool) {
    security.enabled && (security.forced || !isOwner)
  }

  predicate MayUse(security: Security, isOwner: bool, command: Command, ctx: Context, row: Row) {
    Subject(security, isOwner) ==> PassesUsing(security.policies, command, ctx, row)
  }

  predicate MayWrite(security: Security, isOwner: bool, command: Command, ctx: Context, row: Row) {
    Subject(security, isOwner) ==> PassesCheck(security.policies, command, ctx, row)
  }

  const ISOLATION: seq<Policy> := [
    Policy("tenant_isolation_select", For(CmdSelect), Some(TenantIsCurrent), None),
    Policy("tenant_isolation_insert", For(CmdInsert), None, Some(TenantIsCurrent)),
    Policy("tenant_isolation_update", For(CmdUpdate), Some(TenantIsCurrent), Some(TenantIsCurrent)),
    Policy("tenant_isolation_delete", For(CmdDelete), Some(TenantIsCurrent), None)]

  const ADMIN_BYPASS := Policy("admin_bypass", ForAll, Some(BypassIsOn), Some(BypassIsOn))

  const BUNDLE: seq<Policy> := ISOLATION + [ADMIN_BYPASS]

  const PROTECTED := Security(true, true, BUNDLE)

  /** PostgreSQL takes the bundle: insert policies only check, select and delete policies only filter. */
  lemma BundleIsWellFormed(p: Policy)
    requires p in BUNDLE
    ensures p.scope == For(CmdInsert) ==> p.using.None? && p.check.Some?
    ensures p.scope == For(CmdSelect) || p.scope == For(CmdDelete) ==> p.using.Some? && p.check.None?
    ensures p.scope == For(CmdUpdate) || p.scope == ForAll ==> p.using.Some? && p.check == p.using
  {
  }

  /** The bundle means: existing rows are usable exactly when they are the current tenant's or the
      bypass is on, and new rows writable under the same condition; for every command and role. */
  lemma BundleMeans(command: Command, isOwner: bool, ctx: Context, row: Row)
    ensures MayWrite(PROTECTED, isOwner, command, ctx, row) && (command == CmdInsert || command == CmdUpdate)
            ==> ctx.bypass || (row.tenant.Some? && row.tenant == ctx.tenant)
    ensures command != CmdInsert ==>
              (MayUse(PROTECTED, isOwner, command, ctx, row) <==>
               ctx.bypass || (row.tenant.Some? && row.tenant == ctx.tenant))
    ensures ctx.bypass || (row.tenant.Some? && row.tenant == ctx.tenant)
            ==> MayWrite(PROTECTED, isOwner, command, ctx, row)
  {
    var k := match command case CmdSelect => 0 case CmdInsert => 1 case CmdUpdate => 2 case CmdDelete => 3;
    assert BUNDLE[k] == ISOLATION[k] && Applies(BUNDLE[k], command) && BUNDLE[k] in BUNDLE;
    assert BUNDLE[4] == ADMIN_BYPASS && ADMIN_BYPASS in BUNDLE;
  }

  // ---- Statements --------------------------------------------------------------------------------

  datatype Statement =
    | Select(table: string, filter: Row -> bool)
    | Insert(table: string, rows: seq<Row>)
    | Update(table: string, filter: Row -> bool, change: Row -> Row)
    | Delete(table: string, filter: Row -> bool)

  datatype Response = Rows(rows: seq<Row>) | Count(n: nat) | Denied | NoSuchTable

  datatype Table = Table(security: Security, rows: seq<Row>)
  type Database = map<string, Table>

  /** The role and session state under which a statement runs. */
  datatype Actor = Actor(isOwner: bool, ctx: Context)

  /** An existing row that the statement's command touches: readable, usable for the command, selected. */
  predicate Touches(security: Security, a: Actor, command: Command, filter: Row -> bool, row: Row) {
    && MayUse(security, a.isOwner, CmdSelect, a.ctx, row)
    && MayUse(security, a.isOwner, command, a.ctx, row)
    && filter(row)
  }

  function Touched(s: Security, a: Actor, command: Command, filter: Row -> bool, rows: seq<Row>): seq<Row> {
    if rows == [] then []
    else
      var rest := Touched(s, a, command, filter, rows[1..]);
      if Touches(s, a, command, filter, rows[0]) then [rows[0]] + rest else rest
  }

  function Untouched(s: Security, a: Actor, command: Command, filter: Row -> bool, rows: seq<Row>): seq<Row> {
    if rows == [] then []
    else
      var rest := Untouched(s, a, command, filter, rows[1..]);
      if Touches(s, a, command, filter, rows[0]) then rest else [rows[0]] + rest
  }

  function Changed(s: Security, a: Actor, filter: Row -> bool, change: Row -> Row, rows: seq<Row>): seq<Row> {
    if rows == [] then []
    else [if Touches(s, a, CmdUpdate, filter, rows[0]) then change(rows[0]) else rows[0]]
         + Changed(s, a, filter, change, rows[1..])
  }

  /** An updated row must pass the update's check and stay readable. */
  predicate ChangeAllowed(s: Security, a: Actor, filter: Row -> bool, change: Row -> Row, rows: seq<Row>) {
    forall r :: r in Touched(s, a, CmdUpdate, filter, rows) ==>
                  && MayWrite(s, a.isOwner, CmdUpdate, a.ctx, change(r))
                  && MayUse(s, a.isOwner, CmdSelect, a.ctx, change(r))
  }

  /** A statement on one table's rows; a violated check denies the whole statement. */
  function OnRows(s: Security, a: Actor, statement: Statement, rows: seq<Row>): (seq<Row>, Response) {
    match statement
    case Select(_, filter) => (rows, Rows(Touched(s, a, CmdSelect, filter, rows)))
    case Insert(_, added) =>
      if forall r :: r in added ==> MayWrite(s, a.isOwner, CmdInsert, a.ctx, r)
      then (rows + added, Count(|added|)) else (rows, Denied)
    case Update(_, filter, change) =>
      if ChangeAllowed(s, a, filter, change, rows)
      then (Changed(s, a, filter, change, rows), Count(|Touched(s, a, CmdUpdate, filter, rows)|))
      else (rows, Denied)
    case Delete(_, filter) =>
      (Untouched(s, a, CmdDelete, filter, rows), Count(|Touched(s, a, CmdDelete, filter, rows)|))
  }

  function Perform(db: Database, a: Actor, statement: Statement): (Database, Response) {
    if statement.table !in db then (db, NoSuchTable)
    else
      var t := db[statement.table];
      var (rows, response) := OnRows(t.security, a, statement, t.rows);
      (db[statement.table := t.(rows := rows)], response)
  }

  // ---- What a statement answers ------------------------------------------------------------------

  function MapRows(f: Row -> Row, rows: seq<Row>): (r: seq<Row>)
    ensures |r| == |rows| && forall i :: 0 <= i < |r| ==> r[i] == f(rows[i])
  {
    seq(|rows|, i requires 0 <= i < |rows| => f(rows[i]))
  }

  function Hits(sees: Row -> bool, filter: Row -> bool): Row -> bool {
    (r: Row) => sees(r) && filter(r)
  }

  function Misses(sees: Row -> bool, filter: Row -> bool): Row -> bool {
    (r: Row) => !(sees(r) && filter(r))
  }

  function Edits(sees: Row -> bool, filter: Row -> bool, change: Row -> Row): Row -> Row {
    (r: Row) => if sees(r) && filter(r) then change(r) else r
  }

  /** A statement of someone who sees the rows with `sees` and no others: it finds those, and it may write
      no row it would not see. */
  function Answer(statement: Statement, rows: seq<Row>, sees: Row -> bool): (seq<Row>, Response) {
    match statement
    case Select(_, filter) => (rows, Rows(Filter(Hits(sees, filter), rows)))
    case Insert(_, added) =>
      if forall r :: r in added ==> sees(r) then (rows + added, Count(|added|)) else (rows, Denied)
    case Update(_, filter, change) =>
      if forall r :: r in Filter(Hits(sees, filter), rows) ==> sees(change(r))
      then (MapRows(Edits(sees, filter, change), rows), Count(|Filter(Hits(sees, filter), rows)|))
      else (rows, Denied)
    case Delete(_, filter) =>
      (Filter(Misses(sees, filter), rows), Count(|Filter(Hits(sees, filter), rows)|))
  }

  /** The bundle lets a session see the current tenant's rows, or all under the bypass. */
  function Sees(ctx: Context): Row -> bool {
    (r: Row) => ctx.bypass || (r.tenant.Some? && r.tenant == ctx.tenant)
  }

  lemma {:induction false} TouchedIsFilter(a: Actor, command: Command, filter: Row -> bool, rows: seq<Row>)
    requires command != CmdInsert
    ensures Touched(PROTECTED, a, command, filter, rows) == Filter(Hits(Sees(a.ctx), filter), rows)
    ensures Untouched(PROTECTED, a, command, filter, rows) == Filter(Misses(Sees(a.ctx), filter), rows)
  {
    if rows != [] {
      BundleMeans(CmdSelect, a.isOwner, a.ctx, rows[0]);
      BundleMeans(command, a.isOwner, a.ctx, rows[0]);
      TouchedIsFilter(a, command, filter, rows[1..]);
    }
  }

  lemma {:induction false} ChangedIsMap(a: Actor, filter: Row -> bool, change: Row -> Row, rows: seq<Row>)
    ensures Changed(PROTECTED, a, filter, change, rows)
         == MapRows(Edits(Sees(a.ctx), filter, change), rows)
  {
    if rows != [] {
      BundleMeans(CmdSelect, a.isOwner, a.ctx, rows[0]);
      BundleMeans(CmdUpdate, a.isOwner, a.ctx, rows[0]);
      ChangedIsMap(a, filter, change, rows[1..]);
    }
  }

  /** An update may leave the row behind. */
  predicate MayKeep(a: Actor, row: Row) {
    MayWrite(PROTECTED, a.isOwner, CmdUpdate, a.ctx, row) && MayUse(PROTECTED, a.isOwner, CmdSelect, a.ctx, row)
  }

  /** What every statement on a protected table answers and leaves, whoever runs it: all of the current
      tenant's rows and no others without the bypass, and every row with it. */
  lemma StatementMeans(a: Actor, s: Statement, rows: seq<Row>)
    ensures OnRows(PROTECTED, a, s, rows) == Answer(s, rows, Sees(a.ctx))
  {
    match s {
      case Select(_, filter) => TouchedIsFilter(a, CmdSelect, filter, rows);
      case Insert(_, added) =>
        forall r | r in added ensures MayWrite(PROTECTED, a.isOwner, CmdInsert, a.ctx, r) <==> Sees(a.ctx)(r) {
          BundleMeans(CmdInsert, a.isOwner, a.ctx, r);
        }
      case Update(_, filter, change) =>
        TouchedIsFilter(a, CmdUpdate, filter, rows);
        ChangedIsMap(a, filter, change, rows);
        forall r ensures MayKeep(a, change(r)) <==> Sees(a.ctx)(change(r)) {
          BundleMeans(CmdUpdate, a.isOwner, a.ctx, change(r));
          BundleMeans(CmdSelect, a.isOwner, a.ctx, change(r));
        }
      case Delete(_, filter) => TouchedIsFilter(a, CmdDelete, filter, rows);
    }
  }

  lemma {:induction false} AllTouched(s: Security, a: Actor, command: Command, filter: Row -> bool, rows: seq<Row>)
    requires !Subject(s, a.isOwner)
    ensures Touched(s, a, command, filter, rows) == Filter(Hits(_ => true, filter), rows)
    ensures Untouched(s, a, command, filter, rows) == Filter(Misses(_ => true, filter), rows)
  {
    if rows != [] {
      AllTouched(s, a, command, filter, rows[1..]);
    }
  }

  lemma {:induction false} AllChanged(s: Security, a: Actor, filter: Row -> bool, change: Row -> Row, rows: seq<Row>)
    requires !Subject(s, a.isOwner)
    ensures Changed(s, a, filter, change, rows) == MapRows(Edits(_ => true, filter, change), rows)
  {
    if rows != [] {
      AllChanged(s, a, filter, change, rows[1..]);
    }
  }

  /** Without row security, and for its owner unless it is forced, a table hides nothing. */
  lemma OpenTableMeans(security: Security, a: Actor, s: Statement, rows: seq<Row>)
    requires !security.enabled || (!security.forced && a.isOwner)
    ensures OnRows(security, a, s, rows) == Answer(s, rows, _ => true)
  {
    match s {
      case Select(_, filter) => AllTouched(security, a, CmdSelect, filter, rows);
      case Insert(_, _) =>
      case Update(_, filter, change) =>
        AllTouched(security, a, CmdUpdate, filter, rows);
        AllChanged(security, a, filter, change, rows);
      case Delete(_, filter) => AllTouched(security, a, CmdDelete, filter, rows);
    }
  }

  /** What setting a variable changes: the bypass is on exactly for a text that reads as true, the tenant is
      the one the text names, and no other name matters. */
  lemma SettingMeans(v: Variables, name: string, value: string, codec: Codec)
    ensures var before, after := ContextOf(v, codec), ContextOf(SetLocal(v, name, value), codec);
            && after.bypass == (if Lower(name) == "app.rls_bypass"
                                then value != "" && codec.parseBool(value) == Some(true) else before.bypass)
            && after.tenant == (if Lower(name) == "app.current_tenant"
                                then (if value == "" then None else codec.parseUuid(value)) else before.tenant)
  {
    SettingNames();
  }

  /** At the end of a transaction local values are gone, and those of the session are there again. */
  lemma EndTransactionMeans(v: Variables, forgotten: set<string>, name: string)
    ensures CurrentSetting(EndTransaction(v, forgotten), name)
         == if name in v.session then Some(v.session[name])
            else if name in v.local && name !in forgotten then Some("") else None
  {
  }

  // ---- One tenant's slice ------------------------------------------------------------------------

  function Mine(rows: seq<Row>, t: Tenant): seq<Row> {
    if rows == [] then []
    else if rows[0].tenant == Some(t) then [rows[0]] + Mine(rows[1..], t)
    else Mine(rows[1..], t)
  }

  /** Everybody else's rows, and rows without a tenant, in order. */
  function Others(rows: seq<Row>, t: Tenant): seq<Row> {
    if rows == [] then []
    else if rows[0].tenant == Some(t) then Others(rows[1..], t)
    else [rows[0]] + Others(rows[1..], t)
  }

  /** The actor has no more than tenant `t`'s rights. */
  predicate ActsAs(a: Actor, t: Tenant) {
    !a.ctx.bypass && (a.ctx.tenant.Some? ==> a.ctx.tenant.value == t)
  }

  lemma {:induction false} MineOfConcat(a: seq<Row>, b: seq<Row>, t: Tenant)
    ensures Mine(a + b, t) == Mine(a, t) + Mine(b, t)
  {
    if a == [] {
      assert a + b == b;
    } else {
      var ab := a + b;
      assert ab[0] == a[0] && ab[1..] == a[1..] + b;
      MineOfConcat(a[1..], b, t);
    }
  }

  lemma {:induction false} OthersOfConcat(a: seq<Row>, b: seq<Row>, t: Tenant)
    ensures Others(a + b, t) == Others(a, t) + Others(b, t)
  {
    if a == [] {
      assert a + b == b;
    } else {
      var ab := a + b;
      assert ab[0] == a[0] && ab[1..] == a[1..] + b;
      OthersOfConcat(a[1..], b, t);
    }
  }

  lemma {:induction false} AllMine(rows: seq<Row>, t: Tenant)
    requires forall r :: r in rows ==> r.tenant == Some(t)
    ensures Mine(rows, t) == rows && Others(rows, t) == []
  {
    if rows != [] {
      assert rows[0] in rows;
      AllMine(rows[1..], t);
    }
  }

  /** A protected table shows and lets go of the actor's own rows only. */
  lemma TouchesMine(a: Actor, t: Tenant, command: Command, filter: Row -> bool, row: Row)
    requires ActsAs(a, t) && command != CmdInsert && Touches(PROTECTED, a, command, filter, row)
    ensures row.tenant == Some(t) && a.ctx.tenant == Some(t)
  {
    BundleMeans(command, a.isOwner, a.ctx, row);
  }

  /** The command reaches no row but tenant `t`'s. */
  ghost predicate ReachesOnly(s: Security, a: Actor, command: Command, filter: Row -> bool, t: Tenant) {
    forall r :: Touches(s, a, command, filter, r) ==> r.tenant == Some(t)
  }

  lemma ActorReachesOnlyOwn(a: Actor, t: Tenant, command: Command, filter: Row -> bool)
    requires ActsAs(a, t) && command != CmdInsert
    ensures ReachesOnly(PROTECTED, a, command, filter, t)
  {
    forall r | Touches(PROTECTED, a, command, filter, r) ensures r.tenant == Some(t) {
      TouchesMine(a, t, command, filter, r);
    }
  }

  lemma MineCons(r: Row, rest: seq<Row>, t: Tenant)
    ensures Mine([r] + rest, t) == if r.tenant == Some(t) then [r] + Mine(rest, t) else Mine(rest, t)
    ensures Others([r] + rest, t) == if r.tenant == Some(t) then Others(rest, t) else [r] + Others(rest, t)
  {
    assert ([r] + rest)[1..] == rest;
  }

  lemma TouchedCons(s: Security, a: Actor, command: Command, filter: Row -> bool, r: Row, rest: seq<Row>)
    ensures Touched(s, a, command, filter, [r] + rest)
         == var tail := Touched(s, a, command, filter, rest);
            if Touches(s, a, command, filter, r) then [r] + tail else tail
    ensures Untouched(s, a, command, filter, [r] + rest)
         == var tail := Untouched(s, a, command, filter, rest);
            if Touches(s, a, command, filter, r) then tail else [r] + tail
  {
    assert ([r] + rest)[1..] == rest;
  }

  lemma ChangedCons(s: Security, a: Actor, filter: Row -> bool, change: Row -> Row, r: Row, rest: seq<Row>)
    ensures Changed(s, a, filter, change, [r] + rest)
         == [if Touches(s, a, CmdUpdate, filter, r) then change(r) else r] + Changed(s, a, filter, change, rest)
  {
    assert ([r] + rest)[1..] == rest;
  }

  lemma {:induction false} TouchedSlices(s: Security, a: Actor, t: Tenant, command: Command, filter: Row -> bool,
                                         rows: seq<Row>)
    requires ReachesOnly(s, a, command, filter, t)
    ensures Touched(s, a, command, filter, rows) == Touched(s, a, command, filter, Mine(rows, t))
  {
    if rows != [] {
      var r, rest := rows[0], rows[1..];
      assert rows == [r] + rest;
      TouchedSlices(s, a, t, command, filter, rest);
      MineCons(r, rest, t);
      TouchedCons(s, a, command, filter, r, rest);
      TouchedCons(s, a, command, filter, r, Mine(rest, t));
    }
  }

  lemma {:induction false} UntouchedSlices(s: Security, a: Actor, t: Tenant, filter: Row -> bool, rows: seq<Row>)
    requires ReachesOnly(s, a, CmdDelete, filter, t)
    ensures Mine(Untouched(s, a, CmdDelete, filter, rows), t) == Untouched(s, a, CmdDelete, filter, Mine(rows, t))
    ensures Others(Untouched(s, a, CmdDelete, filter, rows), t) == Others(rows, t)
  {
    if rows != [] {
      var r, rest := rows[0], rows[1..];
      assert rows == [r] + rest;
      UntouchedSlices(s, a, t, filter, rest);
      MineCons(r, rest, t);
      MineCons(r, Untouched(s, a, CmdDelete, filter, rest), t);
      TouchedCons(s, a, CmdDelete, filter, r, rest);
      TouchedCons(s, a, CmdDelete, filter, r, Mine(rest, t));
    }
  }

  lemma {:induction false} ChangedSlices(s: Security, a: Actor, t: Tenant, filter: Row -> bool, change: Row -> Row,
                                         rows: seq<Row>)
    requires ReachesOnly(s, a, CmdUpdate, filter, t)
    requires forall r :: r in Touched(s, a, CmdUpdate, filter, rows) ==> change(r).tenant == Some(t)
    ensures Mine(Changed(s, a, filter, change, rows), t) == Changed(s, a, filter, change, Mine(rows, t))
    ensures Others(Changed(s, a, filter, change, rows), t) == Others(rows, t)
  {
    if rows != [] {
      var r, rest := rows[0], rows[1..];
      assert rows == [r] + rest;
      TouchedCons(s, a, CmdUpdate, filter, r, rest);
      ChangedSlices(s, a, t, filter, change, rest);
      MineCons(r, rest, t);
      ChangedCons(s, a, filter, change, r, rest);
      ChangedCons(s, a, filter, change, r, Mine(rest, t));
      MineCons(if Touches(s, a, CmdUpdate, filter, r) then change(r) else r, Changed(s, a, filter, change, rest), t);
    }
  }

  /** A statement run as tenant `t` on a protected table behaves as if the table held `t`'s rows alone,
      and leaves all other rows as they are. */
  lemma StatementSeesOwnSlice(a: Actor, t: Tenant, s: Statement, rows: seq<Row>)
    requires ActsAs(a, t)
    ensures OnRows(PROTECTED, a, s, rows).1 == OnRows(PROTECTED, a, s, Mine(rows, t)).1
    ensures Mine(OnRows(PROTECTED, a, s, rows).0, t) == OnRows(PROTECTED, a, s, Mine(rows, t)).0
    ensures Others(OnRows(PROTECTED, a, s, rows).0, t) == Others(rows, t)
  {
    match s {
      case Select(_, filter) =>
        ActorReachesOnlyOwn(a, t, CmdSelect, filter);
        TouchedSlices(PROTECTED, a, t, CmdSelect, filter, rows);
      case Insert(_, added) =>
        if forall r :: r in added ==> MayWrite(PROTECTED, a.isOwner, CmdInsert, a.ctx, r) {
          forall r | r in added ensures r.tenant == Some(t) {
            BundleMeans(CmdInsert, a.isOwner, a.ctx, r);
          }
          AllMine(added, t);
          MineOfConcat(rows, added, t);
          OthersOfConcat(rows, added, t);
        }
      case Update(_, filter, change) =>
        ActorReachesOnlyOwn(a, t, CmdUpdate, filter);
        TouchedSlices(PROTECTED, a, t, CmdUpdate, filter, rows);
        if ChangeAllowed(PROTECTED, a, filter, change, rows) {
          forall r | r in Touched(PROTECTED, a, CmdUpdate, filter, rows) ensures change(r).tenant == Some(t) {
            BundleMeans(CmdUpdate, a.isOwner, a.ctx, change(r));
          }
          ChangedSlices(PROTECTED, a, t, filter, change, rows);
        }
      case Delete(_, filter) =>
        ActorReachesOnlyOwn(a, t, CmdDelete, filter);
        TouchedSlices(PROTECTED, a, t, CmdDelete, filter, rows);
        UntouchedSlices(PROTECTED, a, t, filter, rows);
    }
  }

  /** Isolation takes nothing away: tenant `t` reaches all of its own rows, with every command. */
  lemma {:induction false} OwnRowsAreReached(a: Actor, t: Tenant, command: Command, filter: Row -> bool, rows: seq<Row>)
    requires a.ctx == Context(Some(t), false) && command != CmdInsert
    ensures Touched(PROTECTED, a, command, filter, rows) == Filter(filter, Mine(rows, t))
  {
    if rows != [] {
      OwnRowsAreReached(a, t, command, filter, rows[1..]);
      BundleMeans(command, a.isOwner, a.ctx, rows[0]);
      BundleMeans(CmdSelect, a.isOwner, a.ctx, rows[0]);
      assert rows[0].tenant == Some(t) ==> Mine(rows, t)[1..] == Mine(rows[1..], t);
    }
  }

  ghost predicate Guarded(db: Database) {
    forall n :: n in db ==> db[n].security == PROTECTED
  }

  /** The two databases hold the same tables and the same rows of tenant `t`, in the same order. */
  ghost predicate Agree(db: Database, db': Database, t: Tenant) {
    && db.Keys == db'.Keys
    && forall n :: n in db ==> Mine(db[n].rows, t) == Mine(db'[n].rows, t)
  }

  ghost predicate OthersUnchanged(before: Database, after: Database, t: Tenant) {
    && before.Keys == after.Keys
    && forall n :: n in before ==> Others(before[n].rows, t) == Others(after[n].rows, t)
  }

  lemma PerformAsTenant(db: Database, db': Database, a: Actor, t: Tenant, s: Statement)
    requires Guarded(db) && Guarded(db') && Agree(db, db', t) && ActsAs(a, t)
    ensures Perform(db, a, s).1 == Perform(db', a, s).1
    ensures Agree(Perform(db, a, s).0, Perform(db', a, s).0, t)
    ensures Guarded(Perform(db, a, s).0) && Guarded(Perform(db', a, s).0)
    ensures OthersUnchanged(db, Perform(db, a, s).0, t)
  {
    if s.table in db {
      StatementSeesOwnSlice(a, t, s, db[s.table].rows);
      StatementSeesOwnSlice(a, t, s, db'[s.table].rows);
    }
  }

  // ---- Whole runs of a client --------------------------------------------------------------------

  datatype Request =
    | Query(statement: Statement)
    | SetTenant(tenant: Tenant)
    | ClearTenant
    | SetVariable(name: string, value: string)
    | Commit(forgotten: set<string>)
    | Rollback(forgotten: set<string>)

  /** A client picks its next request from all the responses so far. */
  type Client = seq<Response> -> Request

  /** `saved` is the database as the current transaction found it. */
  datatype State = State(db: Database, saved: Database, variables: Variables, history: seq<Response>)

  function Serve(state: State, request: Request, codec: Codec, isOwner: bool): State {
    match request
    case Query(s) =>
      var (db, response) := Perform(state.db, Actor(isOwner, ContextOf(state.variables, codec)), s);
      state.(db := db, history := state.history + [response])
    case SetTenant(t) =>
      state.(variables := SetLocal(state.variables, CURRENT_TENANT, codec.uuidText(t)),
             history := state.history + [Count(0)])
    case ClearTenant =>
      state.(variables := SetLocal(state.variables, CURRENT_TENANT, ""), history := state.history + [Count(0)])
    case SetVariable(name, value) =>
      state.(variables := SetLocal(state.variables, name, value), history := state.history + [Count(0)])
    case Commit(forgotten) =>
      State(state.db, state.db, EndTransaction(state.variables, forgotten), state.history + [Count(0)])
    case Rollback(forgotten) =>
      State(state.saved, state.saved, EndTransaction(state.variables, forgotten), state.history + [Count(0)])
  }

  function ServeAll(state: State, requests: seq<Request>, codec: Codec, isOwner: bool): State {
    if requests == [] then state
    else Serve(ServeAll(state, requests[..|requests| - 1], codec, isOwner), requests[|requests| - 1], codec, isOwner)
  }

  /** Setting the bypass to a true value, in any spelling of its name, makes the session see and write every
      row of every protected table, until the transaction ends. */
  lemma BypassSeesEverything(state: State, name: string, value: string, s: Statement, codec: Codec, isOwner: bool)
    requires Lower(name) == "app.rls_bypass" && value != "" && codec.parseBool(value) == Some(true)
    requires Guarded(state.db) && s.table in state.db
    ensures var answer := Answer(s, state.db[s.table].rows, _ => true);
            var e := ServeAll(state, [SetVariable(name, value), Query(s)], codec, isOwner);
            && e.history == state.history + [Count(0), answer.1]
            && e.db == state.db[s.table := Table(PROTECTED, answer.0)]
  {
    var u := Serve(state, SetVariable(name, value), codec, isOwner);
    TwoRequests(state, SetVariable(name, value), Query(s), codec, isOwner);
    SettingMeans(state.variables, name, value, codec);
    var a := Actor(isOwner, ContextOf(u.variables, codec));
    StatementMeans(a, s, state.db[s.table].rows);
    SameAnswer(s, state.db[s.table].rows, Sees(a.ctx), _ => true);
  }

  /** Setting the tenant makes a session without the bypass see and write exactly that tenant's rows. */
  lemma TenantSeesItsOwn(state: State, t: Tenant, s: Statement, codec: Codec, isOwner: bool)
    requires SoundCodec(codec) && !IsRlsBypassed(state.variables, codec)
    requires Guarded(state.db) && s.table in state.db
    ensures var answer := Answer(s, state.db[s.table].rows, (r: Row) => r.tenant == Some(t));
            var e := ServeAll(state, [SetTenant(t), Query(s)], codec, isOwner);
            && e.history == state.history + [Count(0), answer.1]
            && e.db == state.db[s.table := Table(PROTECTED, answer.0)]
  {
    var u := Serve(state, SetTenant(t), codec, isOwner);
    TwoRequests(state, SetTenant(t), Query(s), codec, isOwner);
    SettingNames();
    SettingMeans(state.variables, CURRENT_TENANT, codec.uuidText(t), codec);
    var a := Actor(isOwner, ContextOf(u.variables, codec));
    StatementMeans(a, s, state.db[s.table].rows);
    SameAnswer(s, state.db[s.table].rows, Sees(a.ctx), (r: Row) => r.tenant == Some(t));
  }

  lemma TwoRequests(state: State, a: Request, b: Request, codec: Codec, isOwner: bool)
    ensures ServeAll(state, [a, b], codec, isOwner) == Serve(Serve(state, a, codec, isOwner), b, codec, isOwner)
  {
    assert [a, b][..1] == [a] && [a][..0] == [];
    assert ServeAll(state, [a], codec, isOwner) == Serve(ServeAll(state, [], codec, isOwner), a, codec, isOwner);
  }

  lemma {:induction false} SameFilter(p: Row -> bool, q: Row -> bool, rows: seq<Row>)
    requires forall r :: p(r) == q(r)
    ensures Filter(p, rows) == Filter(q, rows)
  {
    if rows != [] {
      SameFilter(p, q, rows[1..]);
    }
  }

  lemma SameAnswer(s: Statement, rows: seq<Row>, sees: Row -> bool, sees': Row -> bool)
    requires forall r :: sees(r) == sees'(r)
    ensures Answer(s, rows, sees) == Answer(s, rows, sees')
  {
    if !s.Insert? {
      SameFilter(Hits(sees, s.filter), Hits(sees', s.filter), rows);
      SameFilter(Misses(sees, s.filter), Misses(sees', s.filter), rows);
    }
    if s.Update? {
      assert MapRows(Edits(sees, s.filter, s.change), rows) == MapRows(Edits(sees', s.filter, s.change), rows);
    }
  }

  /** A transaction is all or nothing: a rollback leaves the database as the transaction found it, and a
      commit keeps what it did, beyond the reach of a later rollback. */
  lemma {:induction false} TransactionIsAtomic(state: State, requests: seq<Request>, codec: Codec, isOwner: bool,
                                               forgotten: set<string>)
    requires forall r :: r in requests ==> !r.Commit? && !r.Rollback?
    ensures ServeAll(state, requests, codec, isOwner).saved == state.saved
    ensures var e := ServeAll(state, requests, codec, isOwner);
            var back := Serve(e, Rollback(forgotten), codec, isOwner);
            var kept := Serve(e, Commit(forgotten), codec, isOwner);
            && back.db == state.saved && back.saved == state.saved
            && kept.db == e.db && Serve(kept, Rollback(forgotten), codec, isOwner).db == e.db
  {
    if requests != [] {
      var init := requests[..|requests| - 1];
      assert requests[|requests| - 1] in requests && forall r :: r in init ==> r in requests;
      TransactionIsAtomic(state, init, codec, isOwner, forgotten);
    }
  }

  function Repeat(step: State -> State, state: State, n: nat): State
    decreases n
  {
    if n == 0 then state else Repeat(step, step(state), n - 1)
  }

  /** The state after `n` requests of a client. */
  function Session(state: State, client: Client, codec: Codec, isOwner: bool, n: nat): State {
    Repeat((s: State) => Serve(s, client(s.history), codec, isOwner), state, n)
  }

  /** The request sets neither the tenant nor the bypass by name. */
  predicate SetsOthers(request: Request) {
    request.SetVariable? ==> Lower(request.name) !in {CURRENT_TENANT, RLS_BYPASS}
  }

  predicate ForTenant(request: Request, t: Tenant) {
    SetsOthers(request) && (request.SetTenant? ==> request.tenant == t)
  }

  /** The client only ever speaks for tenant `t` and never asks for the bypass. */
  ghost predicate SpeaksFor(client: Client, t: Tenant) {
    forall h :: ForTenant(client(h), t)
  }

  /** The connection holds nothing but tenant `t`'s context, an empty one, or none. */
  ghost predicate Holding(v: Variables, codec: Codec, t: Tenant) {
    && (CURRENT_TENANT in v.local ==> v.local[CURRENT_TENANT] in {codec.uuidText(t), ""})
    && (CURRENT_TENANT in v.session ==> v.session[CURRENT_TENANT] == "")
    && RLS_BYPASS !in v.local
    && (RLS_BYPASS in v.session ==> v.session[RLS_BYPASS] == "")
  }

  lemma HoldingActsAs(v: Variables, codec: Codec, t: Tenant, isOwner: bool)
    requires SoundCodec(codec) && Holding(v, codec, t)
    ensures ActsAs(Actor(isOwner, ContextOf(v, codec)), t)
  {
  }

  lemma ServeKeepsHolding(state: State, request: Request, codec: Codec, isOwner: bool, t: Tenant)
    requires SoundCodec(codec) && Holding(state.variables, codec, t)
    requires ForTenant(request, t)
    ensures Holding(Serve(state, request, codec, isOwner).variables, codec, t)
  {
    SettingNames();
  }

  /** From `s` and `s'` tenant `t` came to `e` and `e'` with the same answers, and touched no other rows. */
  ghost predicate Isolated(s: State, s': State, e: State, e': State, t: Tenant) {
    && e.history == e'.history
    && Agree(e.db, e'.db, t)
    && OthersUnchanged(s.db, e.db, t)
    && OthersUnchanged(s'.db, e'.db, t)
  }

  lemma IsolatedOnwards(s: State, s': State, m: State, m': State, e: State, e': State, t: Tenant)
    requires Isolated(s, s', m, m', t) && Isolated(m, m', e, e', t)
    ensures Isolated(s, s', e, e', t)
  {
  }

  /** Nothing but the other tenants' rows tells `s` from `s'`, neither connection acts for another tenant, and
      the current transactions have left the other tenants' rows alone. */
  ghost predicate Alike(s: State, s': State, codec: Codec, t: Tenant) {
    && s.variables == s'.variables && s.history == s'.history && Holding(s.variables, codec, t)
    && Guarded(s.db) && Guarded(s'.db) && Agree(s.db, s'.db, t)
    && Guarded(s.saved) && Guarded(s'.saved) && Agree(s.saved, s'.saved, t)
    && OthersUnchanged(s.saved, s.db, t) && OthersUnchanged(s'.saved, s'.db, t)
  }

  /** One request of tenant `t` is answered alike by two databases that agree on its rows. */
  lemma ServeAlike(s: State, s': State, request: Request, codec: Codec, isOwner: bool, t: Tenant)
    requires SoundCodec(codec) && ForTenant(request, t)
    requires Alike(s, s', codec, t)
    ensures Alike(Serve(s, request, codec, isOwner), Serve(s', request, codec, isOwner), codec, t)
    ensures Isolated(s, s', Serve(s, request, codec, isOwner), Serve(s', request, codec, isOwner), t)
  {
    var a := Actor(isOwner, ContextOf(s.variables, codec));
    HoldingActsAs(s.variables, codec, t, isOwner);
    ServeKeepsHolding(s, request, codec, isOwner, t);
    if request.Query? {
      PerformAsTenant(s.db, s'.db, a, t, request.statement);
      PerformAsTenant(s'.db, s.db, a, t, request.statement);
    }
  }

  type Pairs = (State, State) -> bool
  type Runs = (State, State, State, State) -> bool

  /** From related states `step` leads to related states. */
  ghost predicate StepRelates(step: State -> State, related: Pairs, runs: Runs, s: State, s': State) {
    related(s, s') ==> runs(s, s', s, s') && related(step(s), step(s')) && runs(s, s', step(s), step(s'))
  }

  ghost predicate Chains(runs: Runs, s: State, s': State, m: State, m': State, e: State, e': State) {
    runs(s, s', m, m') && runs(m, m', e, e') ==> runs(s, s', e, e')
  }

  /** What holds of one step in both runs holds of any number of them. */
  lemma {:induction false} RepeatRelates(step: State -> State, related: Pairs, runs: Runs, s: State, s': State, n: nat)
    requires forall x, x' :: StepRelates(step, related, runs, x, x')
    requires forall x, x', m, m', e, e' :: Chains(runs, x, x', m, m', e, e')
    requires related(s, s')
    ensures runs(s, s', Repeat(step, s, n), Repeat(step, s', n))
    decreases n
  {
    assert StepRelates(step, related, runs, s, s');
    if n > 0 {
      RepeatRelates(step, related, runs, step(s), step(s'), n - 1);
      assert Chains(runs, s, s', step(s), step(s'), Repeat(step, s, n), Repeat(step, s', n));
    }
  }

  /** Tenant non-interference over whole adaptive runs, commits and rollbacks included: two databases that
      agree on tenant `t`'s rows answer a client of `t` alike for ever, keep agreeing, and keep all other rows. */
  lemma NonInterference(s: State, s': State, client: Client, codec: Codec, isOwner: bool, t: Tenant, n: nat)
    requires SoundCodec(codec) && SpeaksFor(client, t)
    requires Alike(s, s', codec, t)
    ensures Isolated(s, s', Session(s, client, codec, isOwner, n), Session(s', client, codec, isOwner, n), t)
  {
    var step := (x: State) => Serve(x, client(x.history), codec, isOwner);
    var related: Pairs := (x, x') => Alike(x, x', codec, t);
    var runs: Runs := (x, x', y, y') => Isolated(x, x', y, y', t);
    forall x, x' ensures StepRelates(step, related, runs, x, x') {
      if Alike(x, x', codec, t) {
        ServeAlike(x, x', client(x.history), codec, isOwner, t);
      }
    }
    forall x, x', m, m', e, e' ensures Chains(runs, x, x', m, m', e, e') {
      if Isolated(x, x', m, m', t) && Isolated(m, m', e, e', t) {
        IsolatedOnwards(x, x', m, m', e, e', t);
      }
    }
    RepeatRelates(step, related, runs, s, s', n);
  }

  // ---- Pooled connections ------------------------------------------------------------------------

  /** One transaction on a pooled connection: the local settings it makes and what it leaves unset. */
  datatype Transaction = Transaction(settings: seq<(string, string)>, forgotten: set<string>)

  function AfterSettings(v: Variables, settings: seq<(string, string)>): Variables
    decreases |settings|
  {
    if settings == [] then v else AfterSettings(SetLocal(v, settings[0].0, settings[0].1), settings[1..])
  }

  function AfterTransaction(v: Variables, t: Transaction): Variables {
    EndTransaction(AfterSettings(v, t.settings), t.forgotten)
  }

  function AfterTransactions(v: Variables, transactions: seq<Transaction>): Variables
    decreases |transactions|
  {
    if transactions == [] then v else AfterTransactions(AfterTransaction(v, transactions[0]), transactions[1..])
  }

  /** Between transactions nothing is left on the connection but empty strings. */
  ghost predicate Clean(v: Variables) {
    v.local == map[] && forall n :: n in v.session ==> v.session[n] == ""
  }

  lemma {:induction false} SettingsAreLocal(v: Variables, settings: seq<(string, string)>)
    ensures AfterSettings(v, settings).session == v.session
    ensures forall n :: n in AfterSettings(v, settings).local
                        <==> n in v.local || exists p :: p in settings && Lower(p.0) == n
    decreases |settings|
  {
    if settings != [] {
      SettingsAreLocal(SetLocal(v, settings[0].0, settings[0].1), settings[1..]);
      assert forall p :: p in settings <==> p == settings[0] || p in settings[1..];
    }
  }

  lemma {:induction false} TransactionsLeaveClean(v: Variables, transactions: seq<Transaction>)
    requires Clean(v)
    ensures Clean(AfterTransactions(v, transactions))
    decreases |transactions|
  {
    if transactions != [] {
      SettingsAreLocal(v, transactions[0].settings);
      TransactionsLeaveClean(AfterTransaction(v, transactions[0]), transactions[1..]);
    }
  }

  lemma {:induction false} NothingTouched(s: Security, a: Actor, command: Command, filter: Row -> bool, rows: seq<Row>)
    requires forall r :: !Touches(s, a, command, filter, r)
    ensures Touched(s, a, command, filter, rows) == []
    ensures Untouched(s, a, command, filter, rows) == rows
  {
    if rows != [] {
      NothingTouched(s, a, command, filter, rows[1..]);
    }
  }

  lemma {:induction false} NothingChanged(s: Security, a: Actor, filter: Row -> bool, change: Row -> Row,
                                          rows: seq<Row>)
    requires forall r :: !Touches(s, a, CmdUpdate, filter, r)
    ensures Changed(s, a, filter, change, rows) == rows
  {
    if rows != [] {
      NothingChanged(s, a, filter, change, rows[1..]);
    }
  }

  lemma BlankReachesNothing(a: Actor, command: Command, filter: Row -> bool)
    requires a.ctx == Context(None, false) && command != CmdInsert
    ensures forall r :: !Touches(PROTECTED, a, command, filter, r)
  {
    forall r ensures !Touches(PROTECTED, a, command, filter, r) {
      BundleMeans(command, a.isOwner, a.ctx, r);
    }
  }

  /** Without a tenant and without the bypass a protected table is empty and read-only. */
  lemma BlankStatement(a: Actor, s: Statement, rows: seq<Row>)
    requires a.ctx == Context(None, false)
    ensures var (after, response) := OnRows(PROTECTED, a, s, rows);
            after == rows && (response.Rows? ==> response.rows == []) && (response.Count? ==> response.n == 0)
  {
    match s {
      case Select(_, filter) =>
        BlankReachesNothing(a, CmdSelect, filter);
        NothingTouched(PROTECTED, a, CmdSelect, filter, rows);
      case Insert(_, added) =>
        if added == [] {
          assert rows + added == rows;
        } else {
          BundleMeans(CmdInsert, a.isOwner, a.ctx, added[0]);
          assert added[0] in added;
        }
      case Update(_, filter, change) =>
        BlankReachesNothing(a, CmdUpdate, filter);
        NothingTouched(PROTECTED, a, CmdUpdate, filter, rows);
        NothingChanged(PROTECTED, a, filter, change, rows);
      case Delete(_, filter) =>
        BlankReachesNothing(a, CmdDelete, filter);
        NothingTouched(PROTECTED, a, CmdDelete, filter, rows);
    }
  }

  /** The client runs statements, sets other variables and ends transactions, but sets neither the tenant
      nor the bypass. */
  ghost predicate SetsNeither(client: Client) {
    forall h :: SetsOthers(client(h)) && !client(h).SetTenant? && !client(h).ClearTenant?
  }

  /** Neither variable has a value that counts. */
  ghost predicate Blank(v: Variables) {
    && CURRENT_TENANT !in v.local && RLS_BYPASS !in v.local
    && (CURRENT_TENANT in v.session ==> v.session[CURRENT_TENANT] == "")
    && (RLS_BYPASS in v.session ==> v.session[RLS_BYPASS] == "")
  }

  predicate TellsNothing(r: Response) {
    (r.Rows? ==> r.rows == []) && (r.Count? ==> r.n == 0)
  }

  /** From `start` nothing has been changed and nothing learned. */
  ghost predicate Idle(start: State, s: State) {
    && s.db == s.saved == start.db && Blank(s.variables)
    && start.history <= s.history
    && forall i :: |start.history| <= i < |s.history| ==> TellsNothing(s.history[i])
  }

  lemma BlankPerform(db: Database, a: Actor, s: Statement)
    requires Guarded(db) && a.ctx == Context(None, false)
    ensures Perform(db, a, s).0 == db && TellsNothing(Perform(db, a, s).1)
  {
    if s.table in db {
      BlankStatement(a, s, db[s.table].rows);
      assert Perform(db, a, s).0[s.table] == db[s.table];
    }
  }

  lemma ServeStaysIdle(start: State, s: State, request: Request, codec: Codec, isOwner: bool)
    requires Guarded(start.db) && Idle(start, s)
    requires SetsOthers(request) && !request.SetTenant? && !request.ClearTenant?
    ensures Idle(start, Serve(s, request, codec, isOwner))
  {
    if request.Query? {
      BlankPerform(s.db, Actor(isOwner, ContextOf(s.variables, codec)), request.statement);
    }
  }

  ghost predicate StepStaysIdle(step: State -> State, start: State, s: State) {
    Idle(start, s) ==> Idle(start, step(s))
  }

  lemma {:induction false} RepeatStaysIdle(step: State -> State, start: State, s: State, n: nat)
    requires forall x :: StepStaysIdle(step, start, x)
    requires Idle(start, s)
    ensures Idle(start, Repeat(step, s, n))
    decreases n
  {
    if n > 0 {
      assert StepStaysIdle(step, start, s);
      RepeatStaysIdle(step, start, step(s), n - 1);
    }
  }

  /** Context does not leak through the pool: whatever transactions ran before on the connection, a client
      that sets neither the tenant nor the bypass reads no row and changes none, however long it goes on. */
  lemma NoLeakThroughPool(codec: Codec, transactions: seq<Transaction>, client: Client, db: Database,
                          isOwner: bool, n: nat)
    requires SetsNeither(client) && Guarded(db)
    ensures var v := AfterTransactions(Variables(map[], map[]), transactions);
            Idle(State(db, db, v, []), Session(State(db, db, v, []), client, codec, isOwner, n))
  {
    var start := State(db, db, AfterTransactions(Variables(map[], map[]), transactions), []);
    TransactionsLeaveClean(Variables(map[], map[]), transactions);
    var step := (x: State) => Serve(x, client(x.history), codec, isOwner);
    forall x ensures StepStaysIdle(step, start, x) {
      if Idle(start, x) {
        ServeStaysIdle(start, x, client(x.history), codec, isOwner);
      }
    }
    RepeatStaysIdle(step, start, start, n);
  }
}
