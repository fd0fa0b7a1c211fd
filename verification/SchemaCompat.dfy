/** What a running API may ask of a database schema, and which schema changes it survives. */
module SchemaCompat {
  import opened Prelude

  datatype Column = Column(ty: string, nullable: bool, hasDefault: bool)
  type Table = map<string, Column>
  type Schema = map<string, Table>

  datatype Cell = Null | Of(ty: string)

  /** A statement names the columns it uses. Inserts and updates give each a cell, selects expect a type. */
  datatype Statement =
    | Insert(table: string, cells: map<string, Cell>)
    | Update(table: string, cells: map<string, Cell>)
    | Select(table: string, columns: map<string, string>)

  predicate Omittable(c: Column) {
    c.nullable || c.hasDefault
  }

  predicate CellFits(c: Column, cell: Cell) {
    match cell
    case Null => c.nullable
    case Of(ty) => ty == c.ty
  }

  /** The cells a column takes tell its type and whether it may be NULL. */
  lemma CellsTell(c: Column, d: Column)
    ensures (forall cell :: CellFits(c, cell) == CellFits(d, cell)) <==> c.ty == d.ty && c.nullable == d.nullable
  {
    assert CellFits(c, Of(c.ty)) && CellFits(d, Of(c.ty)) == (c.ty == d.ty);
    assert CellFits(c, Null) == c.nullable && CellFits(d, Null) == d.nullable;
  }

  ghost predicate CellsFit(t: Table, cells: map<string, Cell>) {
    forall c :: c in cells ==> c in t && CellFits(t[c], cells[c])
  }

  /** The database takes the statement without an error. */
  ghost predicate Accepts(schema: Schema, s: Statement) {
    s.table in schema &&
    var t := schema[s.table];
    match s
    case Insert(_, cells) => CellsFit(t, cells) && forall c :: c in t && c !in cells ==> Omittable(t[c])
    case Update(_, cells) => CellsFit(t, cells)
    case Select(_, columns) => forall c :: c in columns ==> c in t && t[c].ty == columns[c]
  }

  /** Every statement that worked before still works. */
  ghost predicate Compatible(before: Schema, after: Schema) {
    forall s :: Accepts(before, s) ==> Accepts(after, s)
  }

  predicate ColumnWidens(c: Column, d: Column) {
    c.ty == d.ty && (c.nullable ==> d.nullable) && (Omittable(c) ==> Omittable(d))
  }

  ghost predicate TableWidens(t: Table, u: Table) {
    && (forall c :: c in t ==> c in u && ColumnWidens(t[c], u[c]))
    && (forall c :: c in u && c !in t ==> Omittable(u[c]))
  }

  /** The structural reading of compatibility: nothing is lost or narrowed, new columns may be left out. */
  ghost predicate Widens(before: Schema, after: Schema) {
    forall t :: t in before ==> t in after && TableWidens(before[t], after[t])
  }

  /** The insert that gives every column of the table a value of its type, except those in `skipped`. */
  function FullRow(t: Table, skipped: set<string>): map<string, Cell> {
    map c | c in t && c !in skipped :: Of(t[c].ty)
  }

  lemma CompatibleGivesTable(before: Schema, after: Schema, t: string)
    requires Compatible(before, after) && t in before
    ensures t in after
  {
    assert Accepts(before, Select(t, map[]));
    assert Accepts(after, Select(t, map[]));
  }

  lemma CompatibleGivesColumn(before: Schema, after: Schema, t: string, c: string)
    requires Compatible(before, after) && t in before && t in after && c in before[t]
    ensures c in after[t] && ColumnWidens(before[t][c], after[t][c])
  {
    var col := before[t][c];
    var read := Select(t, map[c := col.ty]);
    assert Accepts(before, read);
    assert Accepts(after, read);
    assert c in read.columns;
    if col.nullable {
      var clear := Update(t, map[c := Null]);
      assert Accepts(before, clear);
      assert Accepts(after, clear);
      assert c in clear.cells;
    }
    if Omittable(col) {
      var insert := Insert(t, FullRow(before[t], {c}));
      assert Accepts(before, insert);
      assert Accepts(after, insert);
      assert c !in insert.cells;
    }
  }

  lemma CompatibleGivesNewColumn(before: Schema, after: Schema, t: string, c: string)
    requires Compatible(before, after) && t in before && t in after && c in after[t] && c !in before[t]
    ensures Omittable(after[t][c])
  {
    var insert := Insert(t, FullRow(before[t], {}));
    assert Accepts(before, insert);
    assert Accepts(after, insert);
    assert c !in insert.cells;
  }

  /** No statement breaks exactly when no table or column is lost or narrowed and every new column may be omitted. */
  lemma CompatibleIffWidens(before: Schema, after: Schema)
    ensures Compatible(before, after) <==> Widens(before, after)
  {
    if Compatible(before, after) {
      forall t | t in before ensures t in after && TableWidens(before[t], after[t]) {
        CompatibleGivesTable(before, after, t);
        forall c | c in before[t] ensures c in after[t] && ColumnWidens(before[t][c], after[t][c]) {
          CompatibleGivesColumn(before, after, t, c);
        }
        forall c | c in after[t] && c !in before[t] ensures Omittable(after[t][c]) {
          CompatibleGivesNewColumn(before, after, t, c);
        }
      }
    }
    if Widens(before, after) {
      forall s | Accepts(before, s) ensures Accepts(after, s) {
        assert TableWidens(before[s.table], after[s.table]);
      }
    }
  }

  /** The schema operations of the migration vocabulary. `nullable`, `ty` and `newName` of an
      alteration are given only when they change. */
  datatype Op =
    | CreateTable(table: string, columns: Table)
    | CreateIndex
    | DropTable(table: string)
    | DropColumn(table: string, column: string)
    | RenameTable(table: string, newTable: string)
    | AddColumn(table: string, column: string, definition: Column)
    | AlterColumn(table: string, column: string, newName: Option<string>, ty: Option<string>, nullable: Option<bool>)

  function Altered(c: Column, ty: Option<string>, nullable: Option<bool>): Column {
    c.(ty := if ty.Some? then ty.value else c.ty,
       nullable := if nullable.Some? then nullable.value else c.nullable)
  }

  /** The schema after the operation, or `None` when the database refuses it. */
  function Apply(op: Op, schema: Schema): Option<Schema> {
    match op
    case CreateTable(t, columns) => if t in schema then None else Some(schema[t := columns])
    case CreateIndex => Some(schema)
    case DropTable(t) => if t in schema then Some(schema - {t}) else None
    case DropColumn(t, c) =>
      if t in schema && c in schema[t] then Some(schema[t := schema[t] - {c}]) else None
    case RenameTable(t, u) =>
      if t in schema && u !in schema then Some((schema - {t})[u := schema[t]]) else None
    case AddColumn(t, c, definition) =>
      if t in schema && c !in schema[t] then Some(schema[t := schema[t][c := definition]]) else None
    case AlterColumn(t, c, newName, ty, nullable) =>
      if t !in schema || c !in schema[t] then None
      else
        var altered := Altered(schema[t][c], ty, nullable);
        if newName.None? then Some(schema[t := schema[t][c := altered]])
        else if newName.value in schema[t] then None
        else Some(schema[t := (schema[t] - {c})[newName.value := altered]])
  }

  /** Operations that the running API survives on every schema; `OpSafeExactly` proves it. */
  predicate OpSafe(op: Op) {
    match op
    case CreateTable(_, _) => true
    case CreateIndex => true
    case DropTable(_) => false
    case DropColumn(_, _) => false
    case RenameTable(t, u) => t == u
    case AddColumn(_, _, definition) => Omittable(definition)
    case AlterColumn(_, c, newName, ty, nullable) =>
      newName == Some(c) || (newName.None? && ty.None? && nullable != Some(false))
  }

  /** A schema on which an unsafe operation does its damage. */
  function Victim(op: Op): Schema {
    match op
    case CreateTable(_, _) => map[]
    case CreateIndex => map[]
    case DropTable(t) => map[t := map[]]
    case DropColumn(t, c) => map[t := map[c := Column("text", true, false)]]
    case RenameTable(t, _) => map[t := map[]]
    case AddColumn(t, _, _) => map[t := map[]]
    case AlterColumn(t, c, _, ty, _) =>
      map[t := map[c := Column(if ty == Some("text") then "integer" else "text", true, false)]]
  }

  lemma SafeOpWidens(op: Op, schema: Schema)
    requires OpSafe(op) && Apply(op, schema).Some?
    ensures Widens(schema, Apply(op, schema).value)
  {
  }

  lemma UnsafeOpNarrows(op: Op)
    requires !OpSafe(op)
    ensures Apply(op, Victim(op)).Some? && !Widens(Victim(op), Apply(op, Victim(op)).value)
  {
    var schema := Victim(op);
    assert op.table in schema;
    if op.AlterColumn? {
      assert op.column in schema[op.table];
    }
  }

  /** An operation is safe exactly when the schema it leaves accepts all that the old one accepted,
      on every schema; a refused operation leaves the schema as it was. */
  lemma OpSafeExactly(op: Op)
    ensures OpSafe(op) <==> forall schema :: Apply(op, schema).Some? ==> Compatible(schema, Apply(op, schema).value)
  {
    if OpSafe(op) {
      forall schema | Apply(op, schema).Some? ensures Compatible(schema, Apply(op, schema).value) {
        SafeOpWidens(op, schema);
        CompatibleIffWidens(schema, Apply(op, schema).value);
      }
    } else {
      UnsafeOpNarrows(op);
      CompatibleIffWidens(Victim(op), Apply(op, Victim(op)).value);
    }
  }

  lemma CompatibleTransitive(a: Schema, b: Schema, c: Schema)
    requires Compatible(a, b) && Compatible(b, c)
    ensures Compatible(a, c)
  {
  }
}
