/** The part of Python's abstract syntax that the migration checker looks at. Every syntax node
    the checker treats alike (assignments, `with`, comparisons, ...) is an `Other` node that keeps
    its child nodes in field order. `Loop` stands for both `for` and `while`. */
module PythonAst {
  import opened Prelude

  /** Floats, bytes, complex numbers and `...` matter by their truth value only. */
  datatype Const = StrConst(s: string) | BoolConst(b: bool) | NumConst(n: int) | NoneConst | OtherConst(truthy: bool)

  datatype Node =
    | Constant(value: Const)
    | Name(id: string)
    | Attribute(object: Node, attr: string)
    | Call(line: nat, func: Node, args: seq<Node>, keywords: seq<Node>)
    | Keyword(arg: Option<string>, expr: Node)  // `**mapping` has no name
    | BinOp(left: Node, isAdd: bool, right: Node)
    | If(test: Node, body: seq<Node>, orelse: seq<Node>)
    | Loop(header: Node, body: seq<Node>, orelse: seq<Node>)
    | Other(parts: seq<Node>)

  /** A module's top-level statements, as far as the checker tells them apart. */
  datatype TopLevel = FunctionDef(name: string, body: seq<Node>) | OtherStatement

  /** Python truth value of a constant. */
  predicate Truthy(c: Const) {
    match c
    case StrConst(s) => s != ""
    case BoolConst(b) => b
    case NumConst(n) => n != 0
    case NoneConst => false
    case OtherConst(truthy) => truthy
  }

  lemma FalsyExactly(c: Const)
    ensures !Truthy(c) <==> c in {StrConst(""), BoolConst(false), NumConst(0), NoneConst, OtherConst(false)}
  {
  }

  /** `node.func.attr`, or "" when the callee is not an attribute. */
  function CalleeAttr(n: Node): string
    requires n.Call?
  {
    if n.func.Attribute? then n.func.attr else ""
  }

  predicate Names(keyword: Node, name: string) {
    keyword.Keyword? && keyword.arg == Some(name)
  }

  /** Value expression of the last keyword called `name`, as a dictionary comprehension keeps it. */
  function KeywordValue(keywords: seq<Node>, name: string): (r: Option<Node>)
    ensures r.None? <==> forall k :: k in keywords ==> !Names(k, name)
    ensures r.Some? ==> exists i :: && 0 <= i < |keywords| && Names(keywords[i], name) && keywords[i].expr == r.value
                                    && forall j :: i < j < |keywords| ==> !Names(keywords[j], name)
  {
    if keywords == [] then None
    else
      var last := keywords[|keywords| - 1];
      if Names(last, name) then Some(last.expr) else KeywordValue(keywords[..|keywords| - 1], name)
  }

  /** Whether some keyword argument is a `**mapping`. */
  predicate HasDoubleStar(keywords: seq<Node>) {
    exists k :: k in keywords && k.Keyword? && k.arg.None?
  }

  /** Every node of the tree rooted at `n`, parents first, children in field order. */
  function Preorder(n: Node): seq<Node>
    decreases n, 1
  {
    [n] + Descendants(n)
  }

  function Descendants(n: Node): seq<Node>
    decreases n, 0
  {
    match n
    case Constant(_) => []
    case Name(_) => []
    case Attribute(o, _) => Preorder(o)
    case Call(_, f, args, keywords) => Preorder(f) + (PreorderAll(args) + PreorderAll(keywords))
    case Keyword(_, e) => Preorder(e)
    case BinOp(l, _, r) => Preorder(l) + Preorder(r)
    case If(test, body, orelse) => Preorder(test) + (PreorderAll(body) + PreorderAll(orelse))
    case Loop(header, body, orelse) => Preorder(header) + (PreorderAll(body) + PreorderAll(orelse))
    case Other(parts) => PreorderAll(parts)
  }

  function PreorderAll(ns: seq<Node>): seq<Node>
    decreases ns, 0
  {
    if ns == [] then [] else Preorder(ns[0]) + PreorderAll(ns[1..])
  }

  lemma {:induction false} PreorderAllConcat(a: seq<Node>, b: seq<Node>)
    ensures PreorderAll(a + b) == PreorderAll(a) + PreorderAll(b)
  {
    if a == [] {
      assert a + b == b;
    } else {
      assert (a + b)[1..] == a[1..] + b;
      PreorderAllConcat(a[1..], b);
    }
  }

  lemma PreorderAllPush(ns: seq<Node>, i: nat)
    requires i < |ns|
    ensures PreorderAll(ns[..i + 1]) == PreorderAll(ns[..i]) + Preorder(ns[i])
  {
    assert ns[..i + 1] == ns[..i] + [ns[i]];
    PreorderAllConcat(ns[..i], [ns[i]]);
    assert [ns[i]][1..] == [];
  }

  /** The nodes of a member of a list of trees are nodes of the list. */
  lemma {:induction false} PreorderAllMember(ns: seq<Node>, n: Node)
    requires n in ns
    ensures forall m :: m in Preorder(n) ==> m in PreorderAll(ns)
  {
    if n != ns[0] {
      assert n in ns[1..];
      PreorderAllMember(ns[1..], n);
    }
  }
}
