/** `scripts/check_migration_safety.py`: the visitor that looks for statements an online upgrade
    must not make, its verdict as a specification, and the agreement between the two. */
module MigrationChecker {
  import opened Prelude
  import opened PythonAst

  datatype Reason =
    | BreaksRunningApi(op: string)
    | RenameOrTypeChange
    | SetNotNull
    | NotNullWithoutDefault
    | DynamicSql
    | DestructiveSql

  datatype Error = Error(line: nat, reason: Reason)

  /** The text of an SQL argument as the checker reads it: constants, `+`, and the first argument of
      any call whatever. */
  function LiteralSql(n: Node): Option<string> {
    match n
    case Constant(StrConst(s)) => Some(s)
    case Call(_, _, args, _) => if args != [] then LiteralSql(args[0]) else None
    case BinOp(l, true, r) =>
      var left, right := LiteralSql(l), LiteralSql(r);
      if left.Some? && right.Some? then Some(left.value + right.value) else None
    case _ => None
  }

  /** The keyword is spelled with the constant `False`. */
  predicate IsLiteralFalse(e: Option<Node>) {
    e == Some(Constant(BoolConst(false)))
  }

  predicate LacksDefault(e: Option<Node>) {
    e == None || e == Some(Constant(NoneConst))
  }

  /** The errors one call earns by itself, in the order in which they are reported. */
  function CallErrors(n: Node, destructive: string -> bool): seq<Error>
  {
    if !n.Call? then []
    else
      var name := CalleeAttr(n);
      if name == "drop_table" || name == "drop_column" || name == "rename_table" then
        [Error(n.line, BreaksRunningApi(name))]
      else if name == "alter_column" then
        (if KeywordValue(n.keywords, "new_column_name").Some? || KeywordValue(n.keywords, "type_").Some?
         then [Error(n.line, RenameOrTypeChange)] else [])
        + (if IsLiteralFalse(KeywordValue(n.keywords, "nullable")) then [Error(n.line, SetNotNull)] else [])
      else if name == "add_column" && n.args != [] && n.args[|n.args| - 1].Call? then
        var keywords := n.args[|n.args| - 1].keywords;
        if IsLiteralFalse(KeywordValue(keywords, "nullable")) && LacksDefault(KeywordValue(keywords, "server_default"))
        then [Error(n.line, NotNullWithoutDefault)] else []
      else if name == "execute" && n.args != [] then
        match LiteralSql(n.args[0])
        case None => [Error(n.line, DynamicSql)]
        case Some(sql) => if destructive(sql) then [Error(n.line, DestructiveSql)] else []
      else []
  }

  /** The verdict on a list of nodes taken one by one. */
  function Verdicts(ns: seq<Node>, destructive: string -> bool): seq<Error> {
    if ns == [] then [] else CallErrors(ns[0], destructive) + Verdicts(ns[1..], destructive)
  }

  lemma {:induction false} VerdictsConcat(a: seq<Node>, b: seq<Node>, destructive: string -> bool)
    ensures Verdicts(a + b, destructive) == Verdicts(a, destructive) + Verdicts(b, destructive)
  {
    if a == [] {
      assert a + b == b;
    } else {
      assert (a + b)[1..] == a[1..] + b;
      VerdictsConcat(a[1..], b, destructive);
    }
  }

  /** No surrounding code hides a rejected call, and no error comes from anywhere else. */
  lemma {:induction false} VerdictsEmptyExactly(ns: seq<Node>, destructive: string -> bool)
    ensures Verdicts(ns, destructive) == [] <==> forall n :: n in ns ==> CallErrors(n, destructive) == []
  {
    if ns != [] {
      VerdictsEmptyExactly(ns[1..], destructive);
      assert forall n :: n in ns <==> n == ns[0] || n in ns[1..];
    }
  }

  class UpgradeVisitor {
    const destructive: string -> bool
    var errors: seq<Error>

    constructor (destructive: string -> bool)
      ensures errors == [] && this.destructive == destructive
    {
      this.destructive := destructive;
      errors := [];
    }

    method Reject(n: Node, reason: Reason)
      requires n.Call?
      modifies this`errors
      ensures errors == old(errors) + [Error(n.line, reason)]
    {
      errors := errors + [Error(n.line, reason)];
    }

    /** Dispatches as `NodeVisitor.visit` does; afterwards `errors` has grown by the per-call errors
        of the node and all its descendants, parents first. */
    method Visit(n: Node)
      modifies this`errors
      ensures errors == old(errors) + Verdicts(Preorder(n), destructive)
      decreases n, 3
    {
      if n.Call? {
        VisitCall(n);
      } else {
        GenericVisit(n);
        OnlyCallsErr(n, destructive);
      }
    }

    method VisitCall(n: Node)
      requires n.Call?
      modifies this`errors
      ensures errors == old(errors) + Verdicts(Preorder(n), destructive)
      decreases n, 2
    {
      ghost var before := errors;
      var name := CalleeAttr(n);
      if name == "drop_table" || name == "drop_column" || name == "rename_table" {
        Reject(n, BreaksRunningApi(name));
      }
      if name == "alter_column" {
        JudgeAlterColumn(n);
      }
      if name == "add_column" && n.args != [] {
        JudgeAddColumn(n);
      }
      if name == "execute" && n.args != [] {
        JudgeExecute(n);
      }
      ghost var judged := errors;
      OwnErrors(n, destructive);
      GenericVisit(n);
      GrewTwice(before, judged, errors, [n], Descendants(n), destructive);
    }

    method JudgeAlterColumn(n: Node)
      requires n.Call? && CalleeAttr(n) == "alter_column"
      modifies this`errors
      ensures errors == old(errors) + CallErrors(n, destructive)
    {
      if KeywordValue(n.keywords, "new_column_name").Some? || KeywordValue(n.keywords, "type_").Some? {
        Reject(n, RenameOrTypeChange);
      }
      if IsLiteralFalse(KeywordValue(n.keywords, "nullable")) {
        Reject(n, SetNotNull);
      }
    }

    method JudgeAddColumn(n: Node)
      requires n.Call? && CalleeAttr(n) == "add_column" && n.args != []
      modifies this`errors
      ensures errors == old(errors) + CallErrors(n, destructive)
    {
      var column := n.args[|n.args| - 1];
      if column.Call? {
        var nullable := KeywordValue(column.keywords, "nullable");
        var default := KeywordValue(column.keywords, "server_default");
        if IsLiteralFalse(nullable) && LacksDefault(default) {
          Reject(n, NotNullWithoutDefault);
        }
      }
    }

    method JudgeExecute(n: Node)
      requires n.Call? && CalleeAttr(n) == "execute" && n.args != []
      modifies this`errors
      ensures errors == old(errors) + CallErrors(n, destructive)
    {
      var sql := LiteralSql(n.args[0]);
      if sql.None? {
        Reject(n, DynamicSql);
      } else if destructive(sql.value) {
        Reject(n, DestructiveSql);
      }
    }

    /** Visits the child nodes in field order. */
    method GenericVisit(n: Node)
      modifies this`errors
      ensures errors == old(errors) + Verdicts(Descendants(n), destructive)
      decreases n, 1
    {
      match n {
        case Constant(_) =>
        case Name(_) =>
        case Attribute(o, _) =>
          Visit(o);
        case Call(_, f, args, keywords) =>
          VisitThree(n, f, args, keywords);
        case Keyword(_, e) =>
          Visit(e);
        case BinOp(l, _, r) =>
          ghost var before := errors;
          Visit(l);
          ghost var between := errors;
          Visit(r);
          GrewTwice(before, between, errors, Preorder(l), Preorder(r), destructive);
        case If(test, body, orelse) =>
          VisitThree(n, test, body, orelse);
        case Loop(header, body, orelse) =>
          VisitThree(n, header, body, orelse);
        case Other(parts) =>
          VisitEach(n, parts);
      }
    }

    /** The children of a node that holds one node and two lists. */
    method VisitThree(ghost parent: Node, first: Node, second: seq<Node>, third: seq<Node>)
      requires first < parent && forall m :: m in second || m in third ==> m < parent
      modifies this`errors
      ensures errors == old(errors)
                        + Verdicts(Preorder(first) + (PreorderAll(second) + PreorderAll(third)), destructive)
      decreases parent, 0, 1
    {
      ghost var e0 := errors;
      Visit(first);
      ghost var e1 := errors;
      VisitEach(parent, second);
      ghost var e2 := errors;
      VisitEach(parent, third);
      GrewTwice(e1, e2, errors, PreorderAll(second), PreorderAll(third), destructive);
      GrewTwice(e0, e1, errors, Preorder(first), PreorderAll(second) + PreorderAll(third), destructive);
    }

    method VisitEach(ghost parent: Node, ns: seq<Node>)
      requires forall m :: m in ns ==> m < parent
      modifies this`errors
      ensures errors == old(errors) + Verdicts(PreorderAll(ns), destructive)
      decreases parent, 0, 0
    {
      for i := 0 to |ns|
        invariant errors == old(errors) + Verdicts(PreorderAll(ns[..i]), destructive)
      {
        assert ns[i] in ns;
        ghost var before := errors;
        Visit(ns[i]);
        GrewTwice(old(errors), before, errors, PreorderAll(ns[..i]), Preorder(ns[i]), destructive);
        PreorderAllPush(ns, i);
      }
      assert ns[..|ns|] == ns;
    }
  }

  /** Two visits one after the other report what one visit of both would. */
  lemma GrewTwice(e0: seq<Error>, e1: seq<Error>, e2: seq<Error>, a: seq<Node>, b: seq<Node>,
                  destructive: string -> bool)
    requires e1 == e0 + Verdicts(a, destructive) && e2 == e1 + Verdicts(b, destructive)
    ensures e2 == e0 + Verdicts(a + b, destructive)
  {
    VerdictsConcat(a, b, destructive);
    AppendAssociates(e0, Verdicts(a, destructive), Verdicts(b, destructive));
  }

  lemma OwnErrors(n: Node, destructive: string -> bool)
    ensures Verdicts([n], destructive) == CallErrors(n, destructive)
  {
    assert [n][1..] == [];
  }

  lemma OnlyCallsErr(n: Node, destructive: string -> bool)
    requires !n.Call?
    ensures Verdicts(Preorder(n), destructive) == Verdicts(Descendants(n), destructive)
  {
    assert Preorder(n)[1..] == Descendants(n);
  }

  /** What `check` reports for one top-level statement. */
  function TopLevelVerdicts(f: TopLevel, destructive: string -> bool): seq<Error> {
    if f.FunctionDef? && f.name == "upgrade" then Verdicts(PreorderAll(f.body), destructive) else []
  }

  /** What `check` reports for a module: the verdicts on every top-level `upgrade`, in file order. */
  function ModuleVerdicts(tree: seq<TopLevel>, destructive: string -> bool): seq<Error> {
    if tree == [] then []
    else ModuleVerdicts(tree[..|tree| - 1], destructive) + TopLevelVerdicts(tree[|tree| - 1], destructive)
  }

  /** The errors come in the order of the file. */
  lemma {:induction false} ModuleVerdictsConcat(a: seq<TopLevel>, b: seq<TopLevel>, destructive: string -> bool)
    ensures ModuleVerdicts(a + b, destructive) == ModuleVerdicts(a, destructive) + ModuleVerdicts(b, destructive)
  {
    if b == [] {
      assert a + b == a;
    } else {
      var n := |b| - 1;
      assert (a + b)[..|a + b| - 1] == a + b[..n] && (a + b)[|a + b| - 1] == b[n];
      ModuleVerdictsConcat(a, b[..n], destructive);
      AppendAssociates(ModuleVerdicts(a, destructive), ModuleVerdicts(b[..n], destructive),
                       TopLevelVerdicts(b[n], destructive));
    }
  }

  /** What is reported is exactly what some call inside some top-level `upgrade` earns. */
  lemma {:induction false} ModuleVerdictsMean(tree: seq<TopLevel>, destructive: string -> bool, e: Error)
    ensures e in ModuleVerdicts(tree, destructive) <==>
            exists f, n :: Earns(tree, f, n, destructive, e)
  {
    if tree != [] {
      var init, last := tree[..|tree| - 1], tree[|tree| - 1];
      ModuleVerdictsMean(init, destructive, e);
      assert forall f :: f in tree <==> f in init || f == last;
      forall f, n ensures Earns(tree, f, n, destructive, e)
                          <==> Earns(init, f, n, destructive, e) || (f == last && Earns([last], f, n, destructive, e)) {
      }
      if last.FunctionDef? {
        VerdictsMean(PreorderAll(last.body), destructive, e);
        if last.name == "upgrade" && e in Verdicts(PreorderAll(last.body), destructive) {
          var n :| n in PreorderAll(last.body) && e in CallErrors(n, destructive);
          assert Earns(tree, last, n, destructive, e);
        }
      }
      if f, n :| Earns(tree, f, n, destructive, e) {
        if f in init {
          assert Earns(init, f, n, destructive, e);
        }
      }
      if f, n :| Earns(init, f, n, destructive, e) {
        assert Earns(tree, f, n, destructive, e);
      }
    }
  }

  /** The call `n` inside the `upgrade` `f` of the module earns the error. */
  ghost predicate Earns(tree: seq<TopLevel>, f: TopLevel, n: Node, destructive: string -> bool, e: Error) {
    f in tree && f.FunctionDef? && f.name == "upgrade" && n in PreorderAll(f.body) && e in CallErrors(n, destructive)
  }

  lemma {:induction false} VerdictsMean(ns: seq<Node>, destructive: string -> bool, e: Error)
    ensures e in Verdicts(ns, destructive) <==> exists n :: n in ns && e in CallErrors(n, destructive)
  {
    if ns != [] {
      VerdictsMean(ns[1..], destructive, e);
      assert forall n :: n in ns <==> n == ns[0] || n in ns[1..];
    }
  }

  /** No call anywhere inside the `upgrade` is rejected. */
  ghost predicate IsClean(f: TopLevel, destructive: string -> bool) {
    f.FunctionDef? && f.name == "upgrade" ==> forall n :: n in PreorderAll(f.body) ==> CallErrors(n, destructive) == []
  }

  /** `check`: a fresh visitor for each `upgrade`; nothing is reported exactly when every `upgrade` is clean. */
  method Check(tree: seq<TopLevel>, destructive: string -> bool) returns (errors: seq<Error>)
    ensures errors == ModuleVerdicts(tree, destructive)
    ensures errors == [] <==> forall f :: f in tree ==> IsClean(f, destructive)
  {
    errors := [];
    for i := 0 to |tree|
      invariant errors == ModuleVerdicts(tree[..i], destructive)
    {
      var node := tree[i];
      if node.FunctionDef? && node.name == "upgrade" {
        var visitor := new UpgradeVisitor(destructive);
        for j := 0 to |node.body|
          invariant visitor.errors == Verdicts(PreorderAll(node.body[..j]), destructive)
          invariant visitor.destructive == destructive
        {
          ghost var seen := visitor.errors;
          visitor.Visit(node.body[j]);
          GrewTwice([], seen, visitor.errors, PreorderAll(node.body[..j]), Preorder(node.body[j]), destructive);
          PreorderAllPush(node.body, j);
        }
        assert node.body[..|node.body|] == node.body;
        errors := errors + visitor.errors;
      }
      assert tree[..i + 1][..i] == tree[..i];
    }
    assert tree[..|tree|] == tree;
    ModuleCleanExactly(tree, destructive);
  }

  lemma {:induction false} ModuleCleanExactly(tree: seq<TopLevel>, destructive: string -> bool)
    ensures ModuleVerdicts(tree, destructive) == [] <==> forall f :: f in tree ==> IsClean(f, destructive)
  {
    if tree != [] {
      var init, last := tree[..|tree| - 1], tree[|tree| - 1];
      ModuleCleanExactly(init, destructive);
      UpgradeCleanExactly(last, destructive);
      AllOfPush(tree, destructive);
    }
  }

  lemma UpgradeCleanExactly(f: TopLevel, destructive: string -> bool)
    ensures IsClean(f, destructive) <==>
            (f.FunctionDef? && f.name == "upgrade" ==> Verdicts(PreorderAll(f.body), destructive) == [])
  {
    if f.FunctionDef? {
      VerdictsEmptyExactly(PreorderAll(f.body), destructive);
    }
  }

  lemma AllOfPush(tree: seq<TopLevel>, destructive: string -> bool)
    requires tree != []
    ensures var init, last := tree[..|tree| - 1], tree[|tree| - 1];
            (forall f :: f in tree ==> IsClean(f, destructive))
            <==> IsClean(last, destructive) && forall f :: f in init ==> IsClean(f, destructive)
  {
    var init, last := tree[..|tree| - 1], tree[|tree| - 1];
    assert forall f :: f in tree <==> f == last || f in init by {
      assert tree == init + [last];
    }
  }
}
