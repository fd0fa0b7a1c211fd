/** What an accepted migration does to the running API: the meaning of the calls the checker
    inspects, the executions of an `upgrade` body, and the checker's soundness with its exact limits. */
module MigrationSoundness {
  import opened Prelude
  import opened PythonAst
  import opened SchemaCompat
  import opened MigrationChecker

  /** What SQL texts mean: which the checker calls destructive, and which yield NULL as an expression. */
  datatype Dialect = Dialect(destructive: string -> bool, yieldsNull: string -> bool)

  /** What a `server_default` amounts to; `Refused` makes `sa.Column` raise. */
  datatype Default = NoDefault | NullDefault | ValueDefault | Refused

  /** What one execution of a call finds in expressions that are not literal. `star` is what `**`
      mappings hold, `column` a column that is not spelled out in the call, `receiver` the table a
      batch operation belongs to; `generated` tells identity, serial and computed columns, and `barred`
      columns whose constraints refuse every row that leaves them out. */
  datatype World = World(
    value: Node -> Const,
    sql: Node -> Option<string>,
    star: string -> Option<Const>,
    default: Node -> Default,
    generated: Node -> bool,
    barred: Node -> bool,
    column: Node -> Option<(string, Column)>,
    receiver: Node -> Option<string>,
    typeName: Node -> string,
    tableColumns: Node -> Table)

  /** The database: what a text does to the schema, and what a call outside the inspected vocabulary
      does. `None` is an error. */
  datatype Database = Database(
    dialect: Dialect,
    sql: (string, Schema) -> Option<Schema>,
    foreign: (string, Schema) -> Option<Schema>)

  /** SQL that is not destructive, and calls outside the migration vocabulary, keep the running API working. */
  ghost predicate Trusted(db: Database) {
    && (forall s, schema :: !db.dialect.destructive(s) && db.sql(s, schema).Some?
                            ==> Compatible(schema, db.sql(s, schema).value))
    && (forall name, schema :: db.foreign(name, schema).Some?
                               ==> Compatible(schema, db.foreign(name, schema).value))
  }

  /** A call of SQLAlchemy's `name`, imported by itself or with its package. */
  predicate Calls(n: Node, name: string) {
    n.Call? && n.func in {Name(name), Attribute(Name("sa"), name), Attribute(Name("sqlalchemy"), name)}
  }

  predicate IsTextCall(n: Node) {
    Calls(n, "text")
  }

  function Eval(n: Node, w: World): Const {
    if n.Constant? then n.value else w.value(n)
  }

  function KeywordConst(keywords: seq<Node>, name: string, w: World): Option<Const> {
    match KeywordValue(keywords, name)
    case Some(n) => Some(Eval(n, w))
    case None => if HasDoubleStar(keywords) then w.star(name) else None
  }

  /** The SQL text an argument really stands for: `text` wraps, `+` joins, any other call may build anything. */
  function EvalSql(n: Node, w: World): Option<string> {
    match n
    case Constant(StrConst(s)) => Some(s)
    case Constant(_) => None
    case Call(_, _, args, _) => if IsTextCall(n) && args != [] then EvalSql(args[0], w) else w.sql(n)
    case BinOp(l, true, r) =>
      var left, right := EvalSql(l, w), EvalSql(r, w);
      if left.Some? && right.Some? then Some(left.value + right.value) else None
    case _ => w.sql(n)
  }

  /** Built from string constants, `+` and `text` alone. */
  predicate OnlyText(n: Node): (r: bool)
    ensures r ==> LiteralSql(n).Some?
  {
    match n
    case Constant(c) => c.StrConst?
    case Call(_, _, args, _) => IsTextCall(n) && args != [] && OnlyText(args[0])
    case BinOp(l, true, r) => OnlyText(l) && OnlyText(r)
    case _ => false
  }

  lemma {:induction false} OnlyTextIsExact(n: Node, w: World)
    requires OnlyText(n)
    ensures LiteralSql(n).Some? && LiteralSql(n) == EvalSql(n, w)
  {
    match n {
      case Constant(_) =>
      case Call(_, _, args, _) => OnlyTextIsExact(args[0], w);
      case BinOp(l, _, r) =>
        OnlyTextIsExact(l, w);
        OnlyTextIsExact(r, w);
    }
  }

  /** A world in which every expression the checker cannot evaluate yields the text `marker`,
      no value, and a NOT NULL column without default. */
  function Adversary(marker: string): World {
    World(_ => NoneConst, _ => Some(marker), _ => Some(StrConst(marker)), _ => NoDefault, _ => false, _ => true,
          _ => Some(("c", Column("text", false, false))), _ => Some("t"), _ => "text", _ => map[])
  }

  /** No operand is a constant that is not text. */
  predicate MayBeSql(n: Node) {
    match n
    case Constant(c) => c.StrConst?
    case Call(_, _, args, _) => IsTextCall(n) && args != [] ==> MayBeSql(args[0])
    case BinOp(l, true, r) => MayBeSql(l) && MayBeSql(r)
    case _ => true
  }

  lemma {:induction false} LiteralSqlMayBeSql(n: Node)
    requires LiteralSql(n).Some?
    ensures MayBeSql(n)
  {
    match n {
      case Constant(_) =>
      case Call(_, _, args, _) => LiteralSqlMayBeSql(args[0]);
      case BinOp(l, _, r) =>
        LiteralSqlMayBeSql(l);
        LiteralSqlMayBeSql(r);
    }
  }

  lemma {:induction false} HiddenCallSurfaces(n: Node, marker: string) returns (before: string, after: string)
    requires MayBeSql(n) && !OnlyText(n)
    ensures EvalSql(n, Adversary(marker)) == Some(before + marker + after)
    decreases n, 1
  {
    match n {
      case BinOp(_, true, _) =>
        before, after := HiddenOperandSurfaces(n, marker);
      case Call(_, _, args, _) =>
        if IsTextCall(n) && args != [] {
          before, after := HiddenCallSurfaces(args[0], marker);
        } else {
          before, after := "", "";
          NothingAround(marker);
        }
      case _ =>
        before, after := "", "";
        NothingAround(marker);
    }
  }

  lemma NothingAround(s: string)
    ensures "" + s + "" == s
  {
  }

  lemma {:induction false} HiddenOperandSurfaces(n: Node, marker: string) returns (before: string, after: string)
    requires n.BinOp? && n.isAdd && MayBeSql(n) && !OnlyText(n)
    ensures EvalSql(n, Adversary(marker)) == Some(before + marker + after)
    decreases n, 0
  {
    if OnlyText(n.left) {
      OnlyTextIsExact(n.left, Adversary(marker));
      var left := LiteralSql(n.left).value;
      var b, a := HiddenCallSurfaces(n.right, marker);
      before, after := left + b, a;
      MoreBefore(left, b, marker, a);
    } else {
      var b, a := HiddenCallSurfaces(n.left, marker);
      var right: string;
      if OnlyText(n.right) {
        OnlyTextIsExact(n.right, Adversary(marker));
        right := LiteralSql(n.right).value;
      } else {
        var c, d := HiddenCallSurfaces(n.right, marker);
        right := c + marker + d;
      }
      before, after := b, a + right;
      MoreAfter(b, marker, a, right);
    }
  }

  lemma MoreBefore(left: string, before: string, marker: string, after: string)
    ensures left + (before + marker + after) == left + before + marker + after
  {
  }

  lemma MoreAfter(before: string, marker: string, after: string, right: string)
    ensures (before + marker + after) + right == before + marker + (after + right)
  {
  }

  /** `literal_sql` reads the argument of any call, so what it returns is the executed text in every
      world exactly when the only calls around the constants are `text`. */
  lemma LiteralSqlExactly(n: Node)
    requires LiteralSql(n).Some?
    ensures OnlyText(n) <==> forall w :: EvalSql(n, w) == LiteralSql(n)
  {
    if OnlyText(n) {
      forall w ensures EvalSql(n, w) == LiteralSql(n) {
        OnlyTextIsExact(n, w);
      }
    } else {
      var marker := LiteralSql(n).value + "!";
      LiteralSqlMayBeSql(n);
      var b, a := HiddenCallSurfaces(n, marker);
      assert |b + marker + a| > |LiteralSql(n).value|;
      assert EvalSql(n, Adversary(marker)) != LiteralSql(n);
    }
  }

  /** Cutting the same SQL text differently never changes the verdict. */
  lemma ResplittingKeepsVerdict(a: Node, b: Node, w: World, line: nat, destructive: string -> bool)
    requires OnlyText(a) && OnlyText(b) && EvalSql(a, w) == EvalSql(b, w)
    ensures CallErrors(Call(line, Attribute(Name("op"), "execute"), [a], []), destructive)
         == CallErrors(Call(line, Attribute(Name("op"), "execute"), [b], []), destructive)
  {
    OnlyTextIsExact(a, w);
    OnlyTextIsExact(b, w);
  }

  datatype Action = Do(op: Op) | RunSql(text: string) | Raise | Foreign(name: string)

  function Str(c: Const): Option<string> {
    if c.StrConst? then Some(c.s) else None
  }

  /** Concatenated string constants: as a default, a quoted value. */
  predicate IsString(n: Node) {
    (n.Constant? && n.value.StrConst?) || (n.BinOp? && n.isAdd && IsString(n.left) && IsString(n.right))
  }

  /** The default that a spelled-out expression gives. */
  function LiteralDefault(n: Node, dialect: Dialect): Option<Default> {
    if IsString(n) then Some(ValueDefault)
    else if n.Constant? then Some(if n.value == NoneConst then NoDefault else Refused)
    else if IsTextCall(n) && OnlyText(n) then
      Some(if dialect.yieldsNull(LiteralSql(n).value) then NullDefault else ValueDefault)
    else None
  }

  function DefaultOf(column: Node, w: World, dialect: Dialect): Default
    requires column.Call?
  {
    match KeywordValue(column.keywords, "server_default")
    case Some(n) => (match LiteralDefault(n, dialect) case Some(d) => d case None => w.default(n))
    case None => if HasDoubleStar(column.keywords) then w.default(column) else NoDefault
  }

  /** The node that names a column: the keyword `name`, or else the first argument. */
  function NameNode(column: Node): Option<Node>
    requires column.Call?
  {
    if KeywordValue(column.keywords, "name").Some? then KeywordValue(column.keywords, "name")
    else if column.args != [] then Some(column.args[0]) else None
  }

  /** Whether the column comes out nullable: as told, or else unless it is a primary key. */
  predicate Nullable(keywords: seq<Node>, w: World) {
    var nullable, primary := KeywordConst(keywords, "nullable", w), KeywordConst(keywords, "primary_key", w);
    if nullable.Some? then Truthy(nullable.value) else primary.Some? ==> !Truthy(primary.value)
  }

  /** The arguments of a column after its name and type. */
  function Items(column: Node): seq<Node>
    requires column.Call?
  {
    var before := (if KeywordValue(column.keywords, "name").Some? then 0 else 1)
                  + (if KeywordValue(column.keywords, "type_").Some? then 0 else 1);
    if before <= |column.args| then column.args[before..] else []
  }

  predicate IsHarmlessItem(n: Node) {
    Calls(n, "ForeignKey") || Calls(n, "Identity") || Calls(n, "Sequence") || Calls(n, "Computed")
  }

  /** A constraint or a starred argument may be among the column's arguments. */
  predicate MayBeBarred(column: Node)
    requires column.Call?
  {
    || (exists n :: n in column.args && n.Other?)
    || (exists n :: n in Items(column) && !IsHarmlessItem(n))
  }

  /** `sa.Column(name, type, ..., nullable=..., primary_key=..., server_default=...)`. */
  function DefinedColumn(column: Node, w: World, dialect: Dialect): Option<(string, Column)>
    requires column.Call?
  {
    var default := DefaultOf(column, w, dialect);
    var name := match NameNode(column) case Some(n) => Str(Eval(n, w)) case None => None;
    var barred := MayBeBarred(column) && w.barred(column);
    if name.None? || default == Refused then None
    else Some((name.value, Column(w.typeName(column), !barred && Nullable(column.keywords, w),
                                  !barred && (default == ValueDefault || w.generated(column)))))
  }

  /** The column a call is about: given by keyword, or as the last positional argument. */
  function ColumnNode(call: Node, keyword: string): Option<Node>
    requires call.Call?
  {
    if KeywordValue(call.keywords, keyword).Some? then KeywordValue(call.keywords, keyword)
    else if call.args != [] then Some(call.args[|call.args| - 1]) else None
  }

  /** The positional arguments before the column: the table, or nothing. */
  function Leading(call: Node, keyword: string): seq<Node>
    requires call.Call?
  {
    if KeywordValue(call.keywords, keyword).Some? || call.args == [] then call.args else call.args[..|call.args| - 1]
  }

  /** The node that names the table. A batch operation has none: its receiver knows the table. */
  function TableNode(call: Node, keyword: string): Option<Node>
    requires call.Call?
  {
    var leading := Leading(call, keyword);
    if leading != [] then Some(leading[0]) else KeywordValue(call.keywords, "table_name")
  }

  function TableName(call: Node, keyword: string, w: World): Option<string>
    requires call.Call?
  {
    if |Leading(call, keyword)| > 1 then None
    else match TableNode(call, keyword)
         case Some(n) => Str(Eval(n, w))
         case None => w.receiver(call)
  }

  function AddColumnAction(call: Node, w: World, dialect: Dialect): Action
    requires call.Call?
  {
    var table := TableName(call, "column", w);
    var column := match ColumnNode(call, "column")
                  case Some(n) => if Calls(n, "Column") then DefinedColumn(n, w, dialect) else w.column(n)
                  case None => if HasDoubleStar(call.keywords) then w.column(call) else None;
    if table.None? || column.None? then Raise
    else Do(AddColumn(table.value, column.value.0, column.value.1))
  }

  function AlterColumnAction(call: Node, w: World): Action
    requires call.Call?
  {
    var table := TableName(call, "column_name", w);
    var column := match ColumnNode(call, "column_name")
                  case Some(n) => Str(Eval(n, w))
                  case None => None;
    var newName := KeywordConst(call.keywords, "new_column_name", w);
    var ty := KeywordConst(call.keywords, "type_", w);
    var nullable := KeywordConst(call.keywords, "nullable", w);
    if table.None? || column.None? then Raise
    else
      Do(AlterColumn(table.value, column.value,
                     if newName.Some? then Str(newName.value) else None,
                     if ty.Some? && ty.value != NoneConst then Some(w.typeName(call)) else None,
                     if nullable.Some? && nullable.value != NoneConst then Some(Truthy(nullable.value)) else None))
  }

  function SqlNode(call: Node): Option<Node>
    requires call.Call?
  {
    if call.args != [] then Some(call.args[0]) else KeywordValue(call.keywords, "sqltext")
  }

  function ExecuteAction(call: Node, w: World): Action
    requires call.Call?
  {
    var sql := match SqlNode(call)
               case Some(n) => EvalSql(n, w)
               case None => if HasDoubleStar(call.keywords) && w.star("sqltext").Some? then Str(w.star("sqltext").value)
                            else None;
    if sql.None? then Raise else RunSql(sql.value)
  }

  /** The operation a call names: `op.drop_table`, or `drop_table` imported by itself. */
  function OpName(call: Node): string
    requires call.Call?
  {
    if call.func.Name? then call.func.id else CalleeAttr(call)
  }

  /** The checker looks at calls of attributes only. */
  predicate Seen(call: Node)
    requires call.Call?
  {
    call.func.Attribute?
  }

  /** The node of a parameter given by position or by keyword. */
  function ArgNode(call: Node, i: nat, keyword: string): Option<Node>
    requires call.Call?
  {
    if i < |call.args| then Some(call.args[i]) else KeywordValue(call.keywords, keyword)
  }

  function ArgText(call: Node, i: nat, keyword: string, w: World): Option<string>
    requires call.Call?
  {
    match ArgNode(call, i, keyword)
    case Some(n) => Str(Eval(n, w))
    case None => if HasDoubleStar(call.keywords) && w.star(keyword).Some? then Str(w.star(keyword).value) else None
  }

  /** What a call does when it is reached. */
  function Denote(call: Node, w: World, dialect: Dialect): Action
    requires call.Call?
  {
    var name := OpName(call);
    var table, column := ArgText(call, 0, "table_name", w), ArgText(call, 1, "column_name", w);
    if name == "create_table" then if table.None? then Raise else Do(CreateTable(table.value, w.tableColumns(call)))
    else if name == "create_index" then Do(CreateIndex)
    else if name == "drop_table" then if table.None? then Raise else Do(DropTable(table.value))
    else if name == "drop_column" then
      if table.None? || column.None? then Raise else Do(DropColumn(table.value, column.value))
    else if name == "rename_table" then RenameTableAction(call, w)
    else if name == "add_column" then AddColumnAction(call, w, dialect)
    else if name == "alter_column" then AlterColumnAction(call, w)
    else if name == "execute" then ExecuteAction(call, w)
    else Foreign(name)
  }

  function RenameTableAction(call: Node, w: World): Action
    requires call.Call?
  {
    var before, after := ArgText(call, 0, "old_table_name", w), ArgText(call, 1, "new_table_name", w);
    if before.None? || after.None? then Raise else Do(RenameTable(before.value, after.value))
  }

  function Effect(action: Action, db: Database, schema: Schema): Option<Schema> {
    match action
    case Do(op) => Apply(op, schema)
    case RunSql(text) => db.sql(text, schema)
    case Raise => None
    case Foreign(name) => db.foreign(name, schema)
  }

  ghost predicate SafeAction(action: Action, db: Database) {
    forall schema :: Effect(action, db, schema).Some? ==> Compatible(schema, Effect(action, db, schema).value)
  }

  /** The call survives every database and every value of its dynamic parts. */
  ghost predicate SafeCall(call: Node, dialect: Dialect)
    requires call.Call?
  {
    forall db: Database, w: World :: Trusted(db) && db.dialect == dialect ==> SafeAction(Denote(call, w, dialect), db)
  }

  /** The keyword is spelled with a truthy constant, or left out with nothing to hide it. */
  predicate CertainlyTrue(keywords: seq<Node>, name: string) {
    match KeywordValue(keywords, name)
    case None => !HasDoubleStar(keywords)
    case Some(Constant(c)) => Truthy(c)
    case Some(_) => false
  }

  /** A primary key is spelled with a falsy constant, or left out with nothing to hide it. */
  predicate CertainlyNotPrimary(keywords: seq<Node>) {
    match KeywordValue(keywords, "primary_key")
    case None => !HasDoubleStar(keywords)
    case Some(Constant(c)) => !Truthy(c)
    case Some(_) => false
  }

  predicate CertainlyNullable(keywords: seq<Node>) {
    CertainlyTrue(keywords, "nullable") && (KeywordValue(keywords, "nullable").None? ==> CertainlyNotPrimary(keywords))
  }

  /** The default is spelled out, with this outcome. */
  predicate CertainlyDefaulted(column: Node, default: Default, dialect: Dialect)
    requires column.Call?
  {
    var n := KeywordValue(column.keywords, "server_default");
    n.Some? && LiteralDefault(n.value, dialect) == Some(default)
  }

  /** `sa.Column(...)` that raises, that may be omitted from every insert, or that the checker sees is not. */
  predicate PinnedColumn(column: Node, seen: bool, dialect: Dialect) {
    && Calls(column, "Column")
    && (|| CertainlyDefaulted(column, Refused, dialect)
        || (!MayBeBarred(column)
            && (CertainlyNullable(column.keywords) || CertainlyDefaulted(column, ValueDefault, dialect)))
        || (seen && IsLiteralFalse(KeywordValue(column.keywords, "nullable"))
            && LacksDefault(KeywordValue(column.keywords, "server_default"))))
  }

  /** The alteration certainly does not rename: the new name is left out with nothing to hide it, or is a
      constant that is no name. */
  predicate CertainlyNoRename(keywords: seq<Node>) {
    match KeywordValue(keywords, "new_column_name")
    case None => !HasDoubleStar(keywords)
    case Some(n) => n.Constant? && !n.value.StrConst?
  }

  predicate CertainlySameType(keywords: seq<Node>) {
    match KeywordValue(keywords, "type_")
    case None => !HasDoubleStar(keywords)
    case Some(n) => n == Constant(NoneConst)
  }

  /** Renaming a column to its own name, which the database refuses. */
  predicate RenamesToItself(call: Node)
    requires call.Call?
  {
    var name := KeywordValue(call.keywords, "new_column_name");
    name.Some? && IsStrConst(name.value) && name == ColumnNode(call, "column_name")
  }

  /** An alteration that changes nothing the running API notices, or that the checker sees does. */
  predicate PinnedAlteration(call: Node, seen: bool)
    requires call.Call?
  {
    || (seen && (|| KeywordValue(call.keywords, "new_column_name").Some? || KeywordValue(call.keywords, "type_").Some?
                 || IsLiteralFalse(KeywordValue(call.keywords, "nullable"))))
    || RenamesToItself(call)
    || NoChange(call.keywords)
  }

  /** An alteration that certainly neither renames nor changes the type nor sets NOT NULL. */
  predicate NoChange(keywords: seq<Node>) {
    && CertainlyNoRename(keywords) && CertainlySameType(keywords)
    && (CertainlyTrue(keywords, "nullable") || KeywordValue(keywords, "nullable") == Some(Constant(NoneConst)))
  }

  predicate IsStrConst(n: Node) {
    n.Constant? && n.value.StrConst?
  }

  /** The call's dangerous parts are spelled out as literals where the checker reads them. Not so: a falsy
      `nullable` other than `False` (`0`, `0.0`), a `nullable` or a default that is not a literal, a
      default that yields NULL, a primary key without either, a column with a constraint other than a
      foreign key, `**` keywords, a column built by anything but `sa.Column`, destructive SQL given by
      keyword, SQL built by calls other than `text`, and an operation called by its bare name that the
      checker would reject if it saw it. */
  predicate Pinned(call: Node, dialect: Dialect)
    requires call.Call?
  {
    PinnedIf(call, Seen(call), dialect)
  }

  /** The call does no harm, whatever its dynamic parts; `SafeCallExactly` proves it. */
  predicate Harmless(call: Node, dialect: Dialect)
    requires call.Call?
  {
    PinnedIf(call, false, dialect)
  }

  /** The call is harmless, or else spelled out where the checker, if it has `seen` the call, reads it. */
  predicate PinnedIf(call: Node, seen: bool, dialect: Dialect)
    requires call.Call?
  {
    var name := OpName(call);
    if name == "drop_table" || name == "drop_column" then seen
    else if name == "rename_table" then
      var before, after := ArgNode(call, 0, "old_table_name"), ArgNode(call, 1, "new_table_name");
      seen || (before.Some? && IsStrConst(before.value) && before == after)
    else if name == "add_column" then
      match ColumnNode(call, "column")
      case Some(n) => PinnedColumn(n, seen && KeywordValue(call.keywords, "column").None?, dialect)
      case None => false
    else if name == "alter_column" then PinnedAlteration(call, seen)
    else if name == "execute" then
      match SqlNode(call)
      case Some(n) => OnlyText(n) && ((seen && call.args != []) || !dialect.destructive(LiteralSql(n).value))
      case None => false
    else true
  }

  /** A pinned call that the checker accepts is harmless. */
  lemma AcceptedIsHarmless(call: Node, dialect: Dialect)
    requires call.Call? && Pinned(call, dialect) && CallErrors(call, dialect.destructive) == []
    ensures Harmless(call, dialect)
  {
  }

  lemma HarmlessAddColumn(call: Node, w: World, dialect: Dialect)
    requires call.Call? && OpName(call) == "add_column" && Harmless(call, dialect)
    ensures var action := AddColumnAction(call, w, dialect); action == Raise || (action.Do? && OpSafe(action.op))
  {
    var column := ColumnNode(call, "column").value;
    if DefinedColumn(column, w, dialect).Some? {
      assert Omittable(DefinedColumn(column, w, dialect).value.1);
    }
  }

  lemma HarmlessAlterColumn(call: Node, w: World, dialect: Dialect)
    requires call.Call? && OpName(call) == "alter_column" && Harmless(call, dialect)
    ensures var action := AlterColumnAction(call, w); action == Raise || (action.Do? && OpSafe(action.op))
  {
  }

  lemma HarmlessRename(call: Node, w: World, dialect: Dialect)
    requires call.Call? && OpName(call) == "rename_table" && Harmless(call, dialect)
    ensures var action := RenameTableAction(call, w); action == Raise || (action.Do? && OpSafe(action.op))
  {
  }

  lemma HarmlessExecute(call: Node, w: World, dialect: Dialect)
    requires call.Call? && OpName(call) == "execute" && Harmless(call, dialect)
    ensures var action := ExecuteAction(call, w);
            action == Raise || (action.RunSql? && !dialect.destructive(action.text))
  {
    OnlyTextIsExact(SqlNode(call).value, w);
  }

  lemma HarmlessIsSafe(call: Node, w: World, db: Database)
    requires call.Call? && Harmless(call, db.dialect) && Trusted(db)
    ensures SafeAction(Denote(call, w, db.dialect), db)
  {
    var name, action := OpName(call), Denote(call, w, db.dialect);
    if name == "add_column" {
      HarmlessAddColumn(call, w, db.dialect);
    } else if name == "alter_column" {
      HarmlessAlterColumn(call, w, db.dialect);
    } else if name == "rename_table" {
      HarmlessRename(call, w, db.dialect);
    } else if name == "execute" {
      HarmlessExecute(call, w, db.dialect);
    }
    if action.Do? {
      OpSafeExactly(action.op);
    }
  }

  /** The table is named by a string literal or by the receiver, and no parameter is given twice. */
  predicate NamesTable(call: Node, keyword: string)
    requires call.Call?
  {
    && |Leading(call, keyword)| <= 1
    && (TableNode(call, keyword).Some? ==> IsStrConst(TableNode(call, keyword).value))
    && (Leading(call, keyword) == [] || KeywordValue(call.keywords, "table_name").None?)
  }

  /** The parameter is given once, as a string literal. */
  predicate NamesArg(call: Node, i: nat, keyword: string)
    requires call.Call?
  {
    && ArgNode(call, i, keyword).Some? && IsStrConst(ArgNode(call, i, keyword).value)
    && (i < |call.args| ==> KeywordValue(call.keywords, keyword).None?)
  }

  /** The names an operation needs are string literals, so that it can run at all. */
  predicate NamesItsTarget(call: Node)
    requires call.Call?
  {
    var name := OpName(call);
    if name == "drop_table" then NamesArg(call, 0, "table_name")
    else if name == "drop_column" then NamesArg(call, 0, "table_name") && NamesArg(call, 1, "column_name")
    else if name == "rename_table" then NamesArg(call, 0, "old_table_name") && NamesArg(call, 1, "new_table_name")
    else if name == "add_column" then
      && NamesTable(call, "column")
      && match ColumnNode(call, "column")
         case Some(n) => Calls(n, "Column") ==> NameNode(n).Some? && IsStrConst(NameNode(n).value)
         case None => HasDoubleStar(call.keywords)
    else if name == "alter_column" then
      && NamesTable(call, "column_name")
      && ColumnNode(call, "column_name").Some? && IsStrConst(ColumnNode(call, "column_name").value)
    else if name == "execute" then
      && (call.args == [] || KeywordValue(call.keywords, "sqltext").None?)
      && match SqlNode(call)
         case Some(n) => MayBeSql(n)
         case None => HasDoubleStar(call.keywords)
    else true
  }

  /** A database that empties itself on destructive SQL and takes everything else without effect. */
  function Fragile(dialect: Dialect): Database {
    Database(dialect,
             (s, schema) => Some(if dialect.destructive(s) then map[] else schema),
             (_, schema) => Some(schema))
  }

  /** The marker makes any SQL text around it destructive, as ` DROP TABLE ` does for the regular expression. */
  ghost predicate Poisonous(marker: string, destructive: string -> bool) {
    forall before, after :: destructive(before + marker + after)
  }

  /** Every dynamic value comes out `False`. */
  function Denier(): World {
    Adversary("").(star := _ => Some(BoolConst(false)), value := _ => BoolConst(false))
  }

  /** A world in which a column that is not harmless comes out NOT NULL. */
  function Spoiler(column: Node): World {
    if column.Call? && CertainlyTrue(column.keywords, "nullable") then Denier().(value := _ => BoolConst(true))
    else Denier()
  }

  /** A world in which whatever may rename the column does. */
  function Renamer(column: string): World {
    Denier().(value := _ => StrConst(column + "x"), star := _ => Some(StrConst(column + "x")))
  }

  lemma HarmfulAlterColumn(call: Node, dialect: Dialect) returns (w: World)
    requires call.Call? && OpName(call) == "alter_column" && NamesItsTarget(call) && !Harmless(call, dialect)
    ensures Denote(call, w, dialect).Do? && !OpSafe(Denote(call, w, dialect).op)
  {
    var column := ColumnNode(call, "column_name").value.value.s;
    var newName := KeywordValue(call.keywords, "new_column_name");
    w := if CertainlyNoRename(call.keywords) then Denier() else Renamer(column);
    assert Denote(call, w, dialect) == AlterColumnAction(call, w);
    var op := AlterColumnAction(call, w).op;
    assert op.column == column;
    if CertainlyNoRename(call.keywords) {
      assert op.newName == None;
      if !CertainlySameType(call.keywords) {
        assert op.ty.Some?;
      } else {
        assert op.nullable == Some(false);
      }
    } else {
      assert |column + "x"| != |column|;
      assert op.newName.Some? && op.newName != Some(column);
    }
  }

  /** A column that is not harmless may come out NOT NULL with nothing to fill it. */
  lemma HarmfulColumn(column: Node, dialect: Dialect)
    requires Calls(column, "Column") && !PinnedColumn(column, false, dialect)
    requires NameNode(column).Some? && IsStrConst(NameNode(column).value)
    ensures DefinedColumn(column, Spoiler(column), dialect).Some?
    ensures !Omittable(DefinedColumn(column, Spoiler(column), dialect).value.1)
  {
    var w := Spoiler(column);
    assert DefaultOf(column, w, dialect) != Refused;
    if !MayBeBarred(column) {
      assert DefaultOf(column, w, dialect) in {NoDefault, NullDefault};
      assert !Nullable(column.keywords, w);
    }
  }

  lemma HarmfulAddColumn(call: Node, dialect: Dialect) returns (w: World)
    requires call.Call? && OpName(call) == "add_column" && NamesItsTarget(call) && !Harmless(call, dialect)
    ensures Denote(call, w, dialect).Do? && !OpSafe(Denote(call, w, dialect).op)
  {
    w := match ColumnNode(call, "column") case Some(n) => Spoiler(n) case None => Denier();
    assert Denote(call, w, dialect) == AddColumnAction(call, w, dialect);
    assert TableName(call, "column", w).Some?;
    match ColumnNode(call, "column") {
      case None =>
      case Some(n) =>
        if Calls(n, "Column") {
          HarmfulColumn(n, dialect);
        }
    }
  }

  lemma HarmfulExecute(call: Node, dialect: Dialect, marker: string) returns (text: string)
    requires call.Call? && OpName(call) == "execute" && NamesItsTarget(call) && !Harmless(call, dialect)
    requires Poisonous(marker, dialect.destructive)
    ensures Denote(call, Adversary(marker), dialect) == RunSql(text) && dialect.destructive(text)
  {
    match SqlNode(call) {
      case None =>
        text := marker;
        NothingAround(marker);
      case Some(n) =>
        if OnlyText(n) {
          OnlyTextIsExact(n, Adversary(marker));
          text := LiteralSql(n).value;
        } else {
          var b, a := HiddenCallSurfaces(n, marker);
          text := b + marker + a;
        }
    }
  }

  /** An operation that the checker rejects by its name alone does its damage when called by its bare name. */
  lemma HarmfulBareName(call: Node, dialect: Dialect)
    requires call.Call? && OpName(call) in {"drop_table", "drop_column", "rename_table"}
    requires NamesItsTarget(call) && !Harmless(call, dialect)
    ensures Denote(call, Denier(), dialect).Do? && !OpSafe(Denote(call, Denier(), dialect).op)
  {
  }

  /** Values of its dynamic parts and a schema with which a harmful call does its damage. */
  lemma HarmfulWitness(call: Node, dialect: Dialect, marker: string) returns (w: World, schema: Schema)
    requires call.Call? && NamesItsTarget(call) && !Harmless(call, dialect)
    requires Poisonous(marker, dialect.destructive)
    ensures Effect(Denote(call, w, dialect), Fragile(dialect), schema).Some?
    ensures !Compatible(schema, Effect(Denote(call, w, dialect), Fragile(dialect), schema).value)
  {
    var name := OpName(call);
    if name == "execute" {
      w := Adversary(marker);
      var text := HarmfulExecute(call, dialect, marker);
      schema := map["t" := map[]];
      EmptyingBreaks(schema);
    } else {
      if name == "alter_column" {
        w := HarmfulAlterColumn(call, dialect);
      } else if name == "add_column" {
        w := HarmfulAddColumn(call, dialect);
      } else {
        w := Denier();
        HarmfulBareName(call, dialect);
      }
      var op := Denote(call, w, dialect).op;
      OpSafeExactly(op);
      schema :| Apply(op, schema).Some? && !Compatible(schema, Apply(op, schema).value);
    }
  }

  lemma EmptyingBreaks(schema: Schema)
    requires "t" in schema
    ensures !Compatible(schema, map[])
  {
    assert Accepts(schema, Select("t", map[])) && !Accepts(map[], Select("t", map[]));
  }

  lemma FragileIsTrusted(dialect: Dialect)
    ensures Trusted(Fragile(dialect))
  {
  }

  lemma HarmfulIsUnsafe(call: Node, dialect: Dialect, marker: string)
    requires call.Call? && NamesItsTarget(call) && !Harmless(call, dialect)
    requires Poisonous(marker, dialect.destructive)
    ensures !SafeCall(call, dialect)
  {
    var w, schema := HarmfulWitness(call, dialect, marker);
    FragileIsTrusted(dialect);
    assert !SafeAction(Denote(call, w, dialect), Fragile(dialect));
  }

  /** Which calls the running API survives, on every schema and whatever their dynamic parts turn out to be. */
  lemma SafeCallExactly(call: Node, dialect: Dialect, marker: string)
    requires call.Call? && NamesItsTarget(call) && Poisonous(marker, dialect.destructive)
    ensures SafeCall(call, dialect) <==> Harmless(call, dialect)
  {
    if Harmless(call, dialect) {
      forall db: Database, w: World | Trusted(db) && db.dialect == dialect
        ensures SafeAction(Denote(call, w, dialect), db)
      {
        HarmlessIsSafe(call, w, db);
      }
    } else {
      HarmfulIsUnsafe(call, dialect, marker);
    }
  }

  /** The exact reach of the checker: an accepted call is safe if and only if its dangerous parts are
      pinned down by literals. */
  lemma AcceptedCallSafeExactly(call: Node, dialect: Dialect, marker: string)
    requires call.Call? && CallErrors(call, dialect.destructive) == [] && NamesItsTarget(call)
    requires Poisonous(marker, dialect.destructive)
    ensures SafeCall(call, dialect) <==> Pinned(call, dialect)
  {
    SafeCallExactly(call, dialect, marker);
    if Pinned(call, dialect) {
      AcceptedIsHarmless(call, dialect);
    }
  }

  /** Renaming a table or a column to its own name, and a new name or type that is spelled out but changes
      nothing. */
  predicate FalseAlarm(call: Node)
    requires call.Call?
  {
    var name := OpName(call);
    if name == "rename_table" then ArgNode(call, 0, "old_table_name") == ArgNode(call, 1, "new_table_name")
    else name == "alter_column" && (RenamesToItself(call) || NoChange(call.keywords))
  }

  lemma RejectedColumnHarms(call: Node, dialect: Dialect)
    requires call.Call? && CalleeAttr(call) == "add_column" && NamesItsTarget(call)
    requires CallErrors(call, dialect.destructive) != []
    ensures !Harmless(call, dialect)
  {
    var column := call.args[|call.args| - 1];
    assert column.Call? && !IsStrConst(column);
    assert ColumnNode(call, "column") == Some(column);
  }

  lemma RejectedSqlHarms(call: Node, dialect: Dialect)
    requires call.Call? && CalleeAttr(call) == "execute" && CallErrors(call, dialect.destructive) != []
    ensures !Harmless(call, dialect)
  {
  }

  /** The exact precision of the checker: a rejected call is safe if and only if it is one of these. Every
      other rejection is earned. */
  lemma RejectedCallSafeExactly(call: Node, dialect: Dialect, marker: string)
    requires call.Call? && CallErrors(call, dialect.destructive) != [] && NamesItsTarget(call)
    requires Poisonous(marker, dialect.destructive)
    ensures SafeCall(call, dialect) <==> FalseAlarm(call)
  {
    SafeCallExactly(call, dialect, marker);
    if CalleeAttr(call) == "add_column" {
      RejectedColumnHarms(call, dialect);
    } else if CalleeAttr(call) == "execute" {
      RejectedSqlHarms(call, dialect);
    }
  }

  /** What an error claims about the call, in terms of what the call does. */
  ghost predicate ReasonHolds(e: Error, call: Node, dialect: Dialect)
    requires call.Call?
  {
    match e.reason
    case BreaksRunningApi(op) =>
      OpName(call) == op && forall w :: Denote(call, w, dialect).Raise? || DropsOrRenames(Denote(call, w, dialect))
    case RenameOrTypeChange =>
      OpName(call) == "alter_column" &&
      (KeywordValue(call.keywords, "new_column_name").Some? || KeywordValue(call.keywords, "type_").Some?)
    case SetNotNull => forall w :: Denote(call, w, dialect).Raise? || SetsNotNull(Denote(call, w, dialect))
    case NotNullWithoutDefault =>
      OpName(call) == "add_column" && call.args != [] &&
      var column := call.args[|call.args| - 1];
      column.Call? && (!HasDoubleStar(column.keywords) ==>
        forall w :: DefinedColumn(column, w, dialect).Some? && !w.generated(column)
                    ==> !Omittable(DefinedColumn(column, w, dialect).value.1))
    case DynamicSql =>
      OpName(call) == "execute" && call.args != [] && !OnlyText(call.args[0]) && LiteralSql(call.args[0]).None?
    case DestructiveSql =>
      OpName(call) == "execute" && call.args != [] && LiteralSql(call.args[0]).Some? && (OnlyText(call.args[0]) ==>
        forall w :: Denote(call, w, dialect).RunSql? && dialect.destructive(Denote(call, w, dialect).text))
  }

  predicate DropsOrRenames(action: Action) {
    action.Do? && (action.op.DropTable? || action.op.DropColumn? || action.op.RenameTable?)
  }

  predicate SetsNotNull(action: Action) {
    action.Do? && action.op.AlterColumn? && action.op.nullable == Some(false)
  }

  lemma SqlReasonsAreTrue(call: Node, dialect: Dialect, e: Error)
    requires call.Call? && CalleeAttr(call) == "execute" && e in CallErrors(call, dialect.destructive)
    ensures e.line == call.line && ReasonHolds(e, call, dialect)
  {
    var n := call.args[0];
    if OnlyText(n) {
      forall w ensures Denote(call, w, dialect) == RunSql(LiteralSql(n).value) {
        OnlyTextIsExact(n, w);
      }
    }
  }

  lemma ColumnReasonsAreTrue(call: Node, dialect: Dialect, e: Error)
    requires call.Call? && CalleeAttr(call) == "add_column" && e in CallErrors(call, dialect.destructive)
    ensures e.line == call.line && ReasonHolds(e, call, dialect)
  {
  }

  /** The checker reports a call at its own line, and the reason it gives is true. */
  lemma ReasonsAreTrue(call: Node, dialect: Dialect, e: Error)
    requires call.Call? && e in CallErrors(call, dialect.destructive)
    ensures e.line == call.line && ReasonHolds(e, call, dialect)
  {
    if CalleeAttr(call) == "execute" {
      SqlReasonsAreTrue(call, dialect, e);
    } else if CalleeAttr(call) == "add_column" {
      ColumnReasonsAreTrue(call, dialect, e);
    }
  }

  /** One execution of a node: the child executions in the order in which they happened, whether it came
      to its end, and what the node itself found if it is a call. */
  datatype Run = Run(node: Node, parts: seq<Run>, completed: bool, world: World)

  function Roots(runs: seq<Run>): (r: seq<Node>)
    ensures |r| == |runs| && forall i :: 0 <= i < |r| ==> r[i] == runs[i].node
  {
    if runs == [] then [] else [runs[0].node] + Roots(runs[1..])
  }

  /** A loop round executes a prefix of the body (`break` and `continue` cut it short) and may be
      followed by the header again. */
  ghost predicate IsRound(r: seq<Node>, header: Node, body: seq<Node>) {
    exists i: nat :: i <= |body| && (r == body[..i] || r == body[..i] + [header])
  }

  function Flatten(rounds: seq<seq<Node>>): seq<Node> {
    if rounds == [] then [] else rounds[0] + Flatten(rounds[1..])
  }

  /** The children that one complete execution of `n` executes, in order. An `Other` node (`try`, `with`, a
      comprehension, ...) may execute its parts any number of times and in any order. */
  ghost predicate Executes(n: Node, ns: seq<Node>) {
    match n
    case Constant(_) => ns == []
    case Name(_) => ns == []
    case Attribute(o, _) => ns == [o]
    case Call(_, f, args, keywords) => ns == [f] + args + keywords
    case Keyword(_, e) => ns == [e]
    case BinOp(l, _, r) => ns == [l, r]
    case If(test, body, orelse) => ns == [test] + body || ns == [test] + orelse
    case Loop(header, body, orelse) =>
      exists rounds, end :: && ns == [header] + Flatten(rounds) + end && (end == [] || end == orelse)
                            && forall r :: r in rounds ==> IsRound(r, header, body)
    case Other(parts) => forall m :: m in ns ==> m in parts
  }

  /** A `break`, a `return` or an exception cuts the execution short after any of the children. */
  ghost predicate ExecutesSome(n: Node, ns: seq<Node>) {
    exists all :: Executes(n, all) && ns <= all
  }

  ghost predicate ValidRun(r: Run) {
    && (if r.completed then Executes(r.node, Roots(r.parts)) else ExecutesSome(r.node, Roots(r.parts)))
    && ValidRuns(r.parts)
  }

  ghost predicate ValidRuns(runs: seq<Run>) {
    forall r :: r in runs ==> ValidRun(r)
  }

  datatype Event = Event(call: Node, world: World)

  /** The calls of a run in the order in which they take effect: arguments before the call itself. */
  function Trace(r: Run): seq<Event>
    decreases r, 0
  {
    TraceAll(r.parts) + if r.node.Call? && r.completed then [Event(r.node, r.world)] else []
  }

  function TraceAll(runs: seq<Run>): seq<Event>
    decreases runs, 0
  {
    if runs == [] then [] else Trace(runs[0]) + TraceAll(runs[1..])
  }

  lemma {:induction false} RoundsStayInside(rounds: seq<seq<Node>>, header: Node, body: seq<Node>)
    requires forall r :: r in rounds ==> IsRound(r, header, body)
    ensures forall m :: m in Flatten(rounds) ==> m == header || m in body
  {
    if rounds != [] {
      assert rounds[0] in rounds;
      RoundsStayInside(rounds[1..], header, body);
    }
  }

  /** What a node executes lies inside it. */
  lemma ExecutesDescendants(n: Node, ns: seq<Node>, c: Node)
    requires Executes(n, ns) && c in ns
    ensures forall m :: m in Preorder(c) ==> m in Descendants(n)
  {
    match n {
      case Constant(_) =>
      case Name(_) =>
      case Attribute(_, _) =>
      case Call(_, f, args, keywords) => DescendantsOfThree(f, args, keywords, c);
      case Keyword(_, _) =>
      case BinOp(_, _, _) =>
      case If(test, body, orelse) => DescendantsOfThree(test, body, orelse, c);
      case Loop(header, body, orelse) =>
        var rounds, end :| && ns == [header] + Flatten(rounds) + end && (end == [] || end == orelse)
                           && forall r :: r in rounds ==> IsRound(r, header, body);
        RoundsStayInside(rounds, header, body);
        DescendantsOfThree(header, body, orelse, c);
      case Other(parts) => PreorderAllMember(parts, c);
    }
  }

  lemma DescendantsOfThree(first: Node, second: seq<Node>, third: seq<Node>, c: Node)
    requires c == first || c in second || c in third
    ensures forall m :: m in Preorder(c) ==> m in Preorder(first) + (PreorderAll(second) + PreorderAll(third))
  {
    if c in second {
      PreorderAllMember(second, c);
    } else if c in third {
      PreorderAllMember(third, c);
    }
  }

  lemma {:induction false} TraceStaysInside(r: Run)
    requires ValidRun(r)
    ensures forall e :: e in Trace(r) ==> e.call.Call? && e.call in Preorder(r.node)
    decreases r, 1
  {
    TraceAllStaysInside(r.parts);
    forall e | e in TraceAll(r.parts) ensures e.call.Call? && e.call in Preorder(r.node) {
      var part :| part in r.parts && e.call in Preorder(part.node);
      var i :| 0 <= i < |r.parts| && r.parts[i] == part;
      assert Roots(r.parts)[i] == part.node;
      var all := if r.completed then Roots(r.parts) else var a :| Executes(r.node, a) && Roots(r.parts) <= a; a;
      ExecutesDescendants(r.node, all, part.node);
    }
  }

  lemma {:induction false} TraceAllStaysInside(runs: seq<Run>)
    requires ValidRuns(runs)
    ensures forall e :: e in TraceAll(runs) ==> e.call.Call? && exists r :: r in runs && e.call in Preorder(r.node)
    decreases runs, 0
  {
    if runs != [] {
      assert runs[0] in runs;
      assert forall r :: r in runs[1..] ==> r in runs;
      TraceStaysInside(runs[0]);
      TraceAllStaysInside(runs[1..]);
    }
  }

  /** The schema seen after the events: an error rolls the whole upgrade back to where it started. */
  function Execute(trace: seq<Event>, db: Database, start: Schema, current: Schema): Schema
    requires forall e :: e in trace ==> e.call.Call?
  {
    if trace == [] then current
    else
      match Effect(Denote(trace[0].call, trace[0].world, db.dialect), db, current)
      case None => start
      case Some(next) => Execute(trace[1..], db, start, next)
  }

  lemma {:induction false} ExecuteStaysCompatible(trace: seq<Event>, db: Database, start: Schema, current: Schema)
    requires forall e :: e in trace ==> e.call.Call? && SafeAction(Denote(e.call, e.world, db.dialect), db)
    requires Compatible(start, current)
    ensures Compatible(start, Execute(trace, db, start, current))
  {
    if trace != [] {
      var e := trace[0];
      assert e in trace;
      match Effect(Denote(e.call, e.world, db.dialect), db, current) {
        case None =>
        case Some(next) =>
          CompatibleTransitive(start, current, next);
          ExecuteStaysCompatible(trace[1..], db, start, next);
      }
    }
  }

  /** Soundness: when `check` reports nothing and the calls inside `upgrade` are pinned down, then on
      every starting schema, on every execution path, complete or cut short, and after any number of
      its calls, every statement of the running API that the old schema accepted is still accepted. */
  lemma CheckerIsSound(tree: seq<TopLevel>, f: TopLevel, db: Database, runs: seq<Run>, start: Schema, k: nat)
    requires ModuleVerdicts(tree, db.dialect.destructive) == []
    requires f in tree && f.FunctionDef? && f.name == "upgrade"
    requires forall n :: n in PreorderAll(f.body) && n.Call? ==> Pinned(n, db.dialect)
    requires Trusted(db)
    requires ValidRuns(runs) && Roots(runs) <= f.body && k <= |TraceAll(runs)|
    ensures forall e :: e in TraceAll(runs) ==> e.call.Call?
    ensures Compatible(start, Execute(TraceAll(runs)[..k], db, start, start))
  {
    ModuleCleanExactly(tree, db.dialect.destructive);
    TraceAllStaysInside(runs);
    assert IsClean(f, db.dialect.destructive);
    forall e | e in TraceAll(runs) ensures e.call.Call? && SafeAction(Denote(e.call, e.world, db.dialect), db) {
      var r :| r in runs && e.call in Preorder(r.node);
      var i :| 0 <= i < |runs| && runs[i] == r;
      assert Roots(runs)[i] == r.node;
      PreorderAllMember(f.body, r.node);
      AcceptedIsHarmless(e.call, db.dialect);
      HarmlessIsSafe(e.call, e.world, db);
    }
    ExecuteStaysCompatible(TraceAll(runs)[..k], db, start, start);
  }

  // ---- Harmful calls are reached -----------------------------------------------------------------

  /** The execution of a node that runs everything inside it once; of a conditional the body, of a loop the
      header. */
  function WholeRun(n: Node, w: World): (r: Run)
    ensures r.node == n && r.completed && r.world == w
    decreases n, 1
  {
    match n
    case Constant(_) => Run(n, [], true, w)
    case Name(_) => Run(n, [], true, w)
    case Attribute(o, _) => Run(n, [WholeRun(o, w)], true, w)
    case Call(_, f, args, keywords) =>
      Run(n, [WholeRun(f, w)] + WholeRuns(args, w) + WholeRuns(keywords, w), true, w)
    case Keyword(_, e) => Run(n, [WholeRun(e, w)], true, w)
    case BinOp(l, _, r) => Run(n, [WholeRun(l, w), WholeRun(r, w)], true, w)
    case If(test, body, _) => Run(n, [WholeRun(test, w)] + WholeRuns(body, w), true, w)
    case Loop(header, _, _) => Run(n, [WholeRun(header, w)], true, w)
    case Other(parts) => Run(n, WholeRuns(parts, w), true, w)
  }

  function WholeRuns(ns: seq<Node>, w: World): (rs: seq<Run>)
    ensures Roots(rs) == ns
    decreases ns, 0
  {
    if ns == [] then [] else [WholeRun(ns[0], w)] + WholeRuns(ns[1..], w)
  }

  lemma {:induction false} RootsConcat(a: seq<Run>, b: seq<Run>)
    ensures Roots(a + b) == Roots(a) + Roots(b)
  {
    assert |Roots(a + b)| == |a| + |b|;
    forall i | 0 <= i < |a| + |b| ensures Roots(a + b)[i] == (Roots(a) + Roots(b))[i] {
      assert (a + b)[i] == if i < |a| then a[i] else b[i - |a|];
    }
  }

  lemma {:induction false} WholeRunIsValid(n: Node, w: World)
    ensures ValidRun(WholeRun(n, w))
    decreases n, 1
  {
    match n {
      case Constant(_) =>
      case Name(_) =>
      case Attribute(o, _) => WholeRunIsValid(o, w);
      case Call(_, f, args, keywords) =>
        WholeRunIsValid(f, w);
        WholeRunsAreValid(args, w);
        WholeRunsAreValid(keywords, w);
        RootsConcat([WholeRun(f, w)], WholeRuns(args, w));
        RootsConcat([WholeRun(f, w)] + WholeRuns(args, w), WholeRuns(keywords, w));
      case Keyword(_, e) => WholeRunIsValid(e, w);
      case BinOp(l, _, r) =>
        WholeRunIsValid(l, w);
        WholeRunIsValid(r, w);
      case If(test, body, _) =>
        WholeRunIsValid(test, w);
        WholeRunsAreValid(body, w);
        RootsConcat([WholeRun(test, w)], WholeRuns(body, w));
      case Loop(header, body, orelse) =>
        WholeRunIsValid(header, w);
        assert [header] == [header] + Flatten([]) + [];
        assert Executes(n, [header]);
        assert Roots([WholeRun(header, w)]) == [header];
      case Other(parts) => WholeRunsAreValid(parts, w);
    }
  }

  lemma {:induction false} WholeRunsAreValid(ns: seq<Node>, w: World)
    ensures ValidRuns(WholeRuns(ns, w))
    decreases ns, 0
  {
    if ns != [] {
      WholeRunIsValid(ns[0], w);
      WholeRunsAreValid(ns[1..], w);
    }
  }

  const VOCABULARY: set<string> := {"create_table", "create_index", "drop_table", "drop_column", "rename_table",
                                    "add_column", "alter_column", "execute"}

  /** No call inside is one of the migration vocabulary. */
  ghost predicate PlainInside(call: Node) {
    forall n :: n in Descendants(call) && n.Call? ==> OpName(n) !in VOCABULARY
  }

  ghost predicate AllForeign(trace: seq<Event>) {
    forall e :: e in trace ==> e.call.Call? && OpName(e.call) !in VOCABULARY
  }

  /** On the fragile database calls outside the vocabulary change nothing. */
  lemma {:induction false} ForeignThenCall(trace: seq<Event>, last: Event, dialect: Dialect, start: Schema)
    requires AllForeign(trace) && last.call.Call?
    requires Effect(Denote(last.call, last.world, dialect), Fragile(dialect), start).Some?
    ensures forall e :: e in trace + [last] ==> e.call.Call?
    ensures Execute(trace + [last], Fragile(dialect), start, start)
         == Effect(Denote(last.call, last.world, dialect), Fragile(dialect), start).value
  {
    if trace == [] {
      assert [last][1..] == [];
      assert trace + [last] == [last];
    } else {
      assert trace[0] in trace;
      assert (trace + [last])[1..] == trace[1..] + [last];
      ForeignThenCall(trace[1..], last, dialect, start);
    }
  }

  /** After these executions a statement that worked before fails. */
  ghost predicate BreaksAfter(runs: seq<Run>, db: Database, start: Schema) {
    && (forall e :: e in TraceAll(runs) ==> e.call.Call?)
    && !Compatible(start, Execute(TraceAll(runs), db, start, start))
  }

  /** What is wrong with a call comes to pass: an `upgrade` that makes a harmful call has a run after which
      the running API is broken. */
  lemma HarmfulUpgradeBreaks(call: Node, dialect: Dialect, marker: string)
    returns (runs: seq<Run>, start: Schema)
    requires call.Call? && NamesItsTarget(call) && Poisonous(marker, dialect.destructive)
    requires !Harmless(call, dialect) && PlainInside(call)
    ensures ValidRuns(runs) && Roots(runs) == [call]
    ensures Trusted(Fragile(dialect)) && BreaksAfter(runs, Fragile(dialect), start)
  {
    var w, schema := HarmfulWitness(call, dialect, marker);
    start := schema;
    var run := WholeRun(call, w);
    runs := [run];
    WholeRunIsValid(call, w);
    FragileIsTrusted(dialect);
    TraceAllStaysInside(run.parts);
    forall e | e in TraceAll(run.parts) ensures e.call.Call? && OpName(e.call) !in VOCABULARY {
      var part :| part in run.parts && e.call in Preorder(part.node);
      var i :| 0 <= i < |run.parts| && run.parts[i] == part;
      assert Roots(run.parts)[i] == part.node;
      ExecutesDescendants(call, Roots(run.parts), part.node);
    }
    assert TraceAll(runs) == TraceAll(run.parts) + [Event(call, w)];
    ForeignThenCall(TraceAll(run.parts), Event(call, w), dialect, schema);
  }

  function OpCall(name: string, args: seq<Node>, keywords: seq<Node>): Node {
    Call(1, Attribute(Name("op"), name), args, keywords)
  }

  function Text(s: string): Node {
    Constant(StrConst(s))
  }

  /** The call is accepted, and what it does can break the running API. */
  ghost predicate Missed(call: Node, w: World, dialect: Dialect)
    requires call.Call?
  {
    && CallErrors(call, dialect.destructive) == []
    && Denote(call, w, dialect).Do?
    && !OpSafe(Denote(call, w, dialect).op)
  }

  /** `drop_table("t")`, imported by its own name, is a call the checker does not recognise. */
  lemma BareNameIsMissed(dialect: Dialect, w: World)
    ensures Missed(Call(1, Name("drop_table"), [Text("t")], []), w, dialect)
  {
  }

  /** A column that may be NULL but has the constraint `CHECK (c IS NOT NULL)` is accepted. */
  lemma CheckedColumnIsMissed(dialect: Dialect, w: World)
    ensures var check := Call(1, Attribute(Name("sa"), "CheckConstraint"), [Text("c IS NOT NULL")], []);
            var column := Call(1, Attribute(Name("sa"), "Column"),
                               [Text("c"), Attribute(Name("sa"), "Text"), check], []);
            w.barred(column) ==> Missed(OpCall("add_column", [Text("t"), column], []), w, dialect)
  {
    var check := Call(1, Attribute(Name("sa"), "CheckConstraint"), [Text("c IS NOT NULL")], []);
    var column := Call(1, Attribute(Name("sa"), "Column"), [Text("c"), Attribute(Name("sa"), "Text"), check], []);
    assert Items(column) == [check];
    assert check in Items(column) && !IsHarmlessItem(check);
    assert MayBeBarred(column);
    assert w.barred(column)
           ==> DefinedColumn(column, w, dialect) == Some(("c", Column(w.typeName(column), false, false)));
  }

  /** `op.alter_column("t", "c", nullable=0)` sets NOT NULL, and so does any falsy constant but
      `False` and `None`: `0.0`, `b""`. */
  lemma FalsyNullableIsMissed(c: Const, dialect: Dialect, w: World)
    requires !Truthy(c) && c !in {NoneConst, BoolConst(false)}
    ensures Missed(OpCall("alter_column", [Text("t"), Text("c")], [Keyword(Some("nullable"), Constant(c))]), w, dialect)
  {
    var keywords := [Keyword(Some("nullable"), Constant(c))];
    assert keywords[..0] == [];
    assert KeywordValue(keywords, "nullable") == Some(Constant(c));
  }

  /** `op.add_column("t", required("c"))` is judged by the keywords of the helper's call. */
  lemma HelperColumnIsMissed(dialect: Dialect, w: World)
    requires w.column(Call(1, Name("required"), [Text("c")], [])) == Some(("c", Column("text", false, false)))
    ensures Missed(OpCall("add_column", [Text("t"), Call(1, Name("required"), [Text("c")], [])], []), w, dialect)
  {
  }

  lemma TwoKeywords(a: string, x: Node, b: string, y: Node)
    requires a != b
    ensures KeywordValue([Keyword(Some(a), x), Keyword(Some(b), y)], a) == Some(x)
    ensures KeywordValue([Keyword(Some(a), x), Keyword(Some(b), y)], b) == Some(y)
  {
    var both := [Keyword(Some(a), x), Keyword(Some(b), y)];
    assert both[..1] == [Keyword(Some(a), x)];
  }

  /** `op.add_column("t", column)` with a spelled-out column that is NOT NULL and gets no value. */
  lemma EmptyColumnBreaks(column: Node, keyword: bool, dialect: Dialect, w: World)
    requires Calls(column, "Column") && KeywordValue(column.keywords, "name").None? && !w.generated(column)
    requires column.args == [Text("c")]
    requires !Nullable(column.keywords, w)
    requires DefaultOf(column, w, dialect) in {NoDefault, NullDefault}
    ensures var call := if keyword then OpCall("add_column", [Text("t")], [Keyword(Some("column"), column)])
                        else OpCall("add_column", [Text("t"), column], []);
            Denote(call, w, dialect) == Do(AddColumn("t", "c", Column(w.typeName(column), false, false)))
  {
    assert DefinedColumn(column, w, dialect) == Some(("c", Column(w.typeName(column), false, false)));
  }

  /** A NOT NULL column whose default is `sa.text("NULL")` cannot be left out of an insert. */
  lemma NullDefaultIsMissed(dialect: Dialect, w: World)
    requires dialect.yieldsNull("NULL")
    ensures var default := Call(1, Attribute(Name("sa"), "text"), [Text("NULL")], []);
            var column := Call(1, Attribute(Name("sa"), "Column"), [Text("c")],
                               [Keyword(Some("nullable"), Constant(BoolConst(false))),
                                Keyword(Some("server_default"), default)]);
            !w.generated(column) ==> Missed(OpCall("add_column", [Text("t"), column], []), w, dialect)
  {
    var default := Call(1, Attribute(Name("sa"), "text"), [Text("NULL")], []);
    var keywords := [Keyword(Some("nullable"), Constant(BoolConst(false))), Keyword(Some("server_default"), default)];
    var column := Call(1, Attribute(Name("sa"), "Column"), [Text("c")], keywords);
    TwoKeywords("nullable", Constant(BoolConst(false)), "server_default", default);
    assert LiteralDefault(default, dialect) == Some(NullDefault);
    if !w.generated(column) {
      EmptyColumnBreaks(column, false, dialect, w);
    }
  }

  /** `op.add_column("t", column=...)` is not looked at: the last positional argument is the table. */
  lemma KeywordColumnIsMissed(dialect: Dialect, w: World)
    ensures var column := Call(1, Attribute(Name("sa"), "Column"), [Text("c")],
                               [Keyword(Some("nullable"), Constant(BoolConst(false)))]);
            !w.generated(column) ==>
              Missed(OpCall("add_column", [Text("t")], [Keyword(Some("column"), column)]), w, dialect)
  {
    var column := Call(1, Attribute(Name("sa"), "Column"), [Text("c")],
                       [Keyword(Some("nullable"), Constant(BoolConst(false)))]);
    if !w.generated(column) {
      EmptyColumnBreaks(column, true, dialect, w);
    }
  }

  /** `op.add_column("t", sa.Column("c", primary_key=True))` is NOT NULL without saying so. */
  lemma PrimaryKeyIsMissed(dialect: Dialect, w: World)
    ensures var column := Call(1, Attribute(Name("sa"), "Column"), [Text("c")],
                               [Keyword(Some("primary_key"), Constant(BoolConst(true)))]);
            !w.generated(column) ==> Missed(OpCall("add_column", [Text("t"), column], []), w, dialect)
  {
    var keywords := [Keyword(Some("primary_key"), Constant(BoolConst(true)))];
    var column := Call(1, Attribute(Name("sa"), "Column"), [Text("c")], keywords);
    assert !Nullable(keywords, w);
    if !w.generated(column) {
      EmptyColumnBreaks(column, false, dialect, w);
    }
  }

  /** `op.execute("DROP TABLE {}".format("orders"))` is judged by the text `orders` alone. */
  lemma FormattedSqlIsMissed(dialect: Dialect, w: World, text: string)
    requires !dialect.destructive("orders")
    requires forall n :: w.sql(n) == Some(text)
    ensures var format := Call(1, Attribute(Text("DROP TABLE {}"), "format"), [Text("orders")], []);
            var call := OpCall("execute", [format], []);
            CallErrors(call, dialect.destructive) == [] && Denote(call, w, dialect) == RunSql(text)
  {
    var format := Call(1, Attribute(Text("DROP TABLE {}"), "format"), [Text("orders")], []);
    assert LiteralSql(format) == Some("orders");
    assert !IsTextCall(format);
  }

  /** `op.execute(sqltext="...")` is not looked at, whatever the text. */
  lemma KeywordSqlIsMissed(dialect: Dialect, w: World, text: string)
    ensures var call := OpCall("execute", [], [Keyword(Some("sqltext"), Text(text))]);
            CallErrors(call, dialect.destructive) == [] && Denote(call, w, dialect) == RunSql(text)
  {
    assert [Keyword(Some("sqltext"), Text(text))][..0] == [];
  }
}
