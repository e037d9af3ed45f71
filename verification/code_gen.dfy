/**
 * The code-generating writer's own bookkeeping: a stack of nodes, one per
 * open object, each collecting the statements that initialise its object;
 * the statement list of the generated method; and the per-type-name counters
 * behind the names of generated locals. Syntax trees are abstract values.
 */
module CodeGen {
  import opened Wrappers
  import opened XamlModel
  import Naming

  /** Generated expressions. */
  datatype Expr =
    | ThisExpr
    | Identifier(name: string)
    | ObjectCreation(typeName: string)
    | LiteralExpr(literal: Value)
    | MemberAccess(target: Expr, member: string)
    | AssignExpr(target: Expr, value: Expr)

  /** Generated statements. */
  datatype Stmt = LocalDeclaration(name: string, init: Expr) | AssignmentStmt(target: Expr, value: Expr)

  /** What a written value does to the node it is written into (the node's `SetValue` action). */
  datatype Setter = NoSetter | ClassSetter | NameSetter | MemberSetter(member: Member)

  /** One open object: its type, open member, `x:Name` identifier, memoised local name and statements. */
  datatype Node = Node(
    xtype: XType,
    member: Option<Member>,
    id: Option<string>,
    name: Option<string>,
    setter: Setter,
    statements: seq<Stmt>)

  datatype Field = Field(name: string, typeName: string)

  /** The generated partial class. */
  datatype ClassDecl = ClassDecl(name: string, baseType: string, fields: seq<Field>)

  /** The writer: node stack (top last), generated statements, name counters, generated class. */
  datatype Writer = Writer(
    nodes: seq<Node>,
    statements: seq<Stmt>,
    nameCount: map<string, nat>,
    top: Option<ClassDecl>)

  const EmptyWriter: Writer := Writer([], [], map[], None)

  /** `val.ToString()`; `show` renders objects other than strings, a null value has no text. */
  function Display(v: Value, show: nat -> string): (r: Option<string>)
    ensures r.None? <==> v.Null?
    ensures v.Text? ==> r == Some(v.s)
  {
    match v
    case Null => None
    case Text(s) => Some(s)
    case Instance(h) => Some(show(h))
  }

  /** Adds a field to the generated class, when there is one. */
  function AddField(top: Option<ClassDecl>, f: Field): (r: Option<ClassDecl>)
    ensures r.Some? <==> top.Some?
    ensures top.Some? ==> r.value.fields == top.value.fields + [f]
  {
    match top
    case None => None
    case Some(c) => Some(c.(fields := c.fields + [f]))
  }

  /*** Node naming ***/

  /** Names the top node (`CurrentNode.GetName`): a node keeps the first name it gets. */
  function NameTop(w: Writer): (r: (string, Writer))
    requires |w.nodes| > 0
    ensures |r.1.nodes| == |w.nodes|
    ensures r.1.nodes[..|w.nodes| - 1] == w.nodes[..|w.nodes| - 1]
    ensures r.1.nodes[|w.nodes| - 1] == w.nodes[|w.nodes| - 1].(name := Some(r.0))
    ensures r.1.statements == w.statements && r.1.top == w.top
    ensures w.nodes[|w.nodes| - 1].name.Some? ==> r == (w.nodes[|w.nodes| - 1].name.value, w)
  {
    var node := w.nodes[|w.nodes| - 1];
    var named := Naming.GetName(node.name, node.xtype.name, w.nameCount);
    var w' := w.(nodes := w.nodes[..|w.nodes| - 1] + [node.(name := Some(named.name))], nameCount := named.counts);
    assert node.name.Some? ==> w' == w;
    (named.name, w')
  }

  /** The expression for the object of the top node (`CurrentObject`): `this` for the root, else the node's local. */
  function CurrentObject(w: Writer): (r: (Expr, Writer))
    requires |w.nodes| > 0
    ensures |w.nodes| == 1 ==> r == (ThisExpr, w)
    ensures |w.nodes| > 1 ==> r == (Identifier(NameTop(w).0), NameTop(w).1)
  {
    if |w.nodes| == 1 then (ThisExpr, w)
    else
      var (name, w') := NameTop(w);
      (Identifier(name), w')
  }

  /** Appends a statement to the top node. */
  function AppendToTop(w: Writer, st: Stmt): (r: Writer)
    requires |w.nodes| > 0
    ensures |r.nodes| == |w.nodes| && r.nodes[..|w.nodes| - 1] == w.nodes[..|w.nodes| - 1]
    ensures r.nodes[|w.nodes| - 1] == w.nodes[|w.nodes| - 1].(statements := w.nodes[|w.nodes| - 1].statements + [st])
    ensures r.statements == w.statements && r.nameCount == w.nameCount && r.top == w.top
  {
    var node := w.nodes[|w.nodes| - 1];
    w.(nodes := w.nodes[..|w.nodes| - 1] + [node.(statements := node.statements + [st])])
  }

  /*** Write operations ***/

  /** Opens an object: pushes a fresh, unnamed node for `t`. */
  function WriteStartObject(w: Writer, t: XType): (r: Writer)
    ensures |r.nodes| == |w.nodes| + 1 && r.nodes[..|w.nodes|] == w.nodes
    ensures r.nodes[|w.nodes|] == Node(t, None, None, None, NoSetter, [])
    ensures r.statements == w.statements && r.nameCount == w.nameCount && r.top == w.top
  {
    w.(nodes := w.nodes + [Node(t, None, None, None, NoSetter, [])])
  }

  /**
   * The action a member installs on its node: `x:Class` declares the class,
   * `x:Name` declares a field, a regular member assigns it, and any other
   * directive ignores its value.
   */
  function SetterFor(m: Member): (r: Setter)
  {
    if m == ClassDirective then ClassSetter
    else if m == NameDirective then NameSetter
    else if !m.isDirective then MemberSetter(m)
    else NoSetter
  }

  /** The action as the source installs it: any other directive keeps the previous member's action. */
  function SetterForAsWritten(m: Member, previous: Setter): (r: Setter)
  {
    if m == ClassDirective then ClassSetter
    else if m == NameDirective then NameSetter
    else if !m.isDirective then MemberSetter(m)
    else previous
  }

  /** Opens member `m` on the top node; with no node the source dereferences null. */
  function WriteStartMember(w: Writer, m: Member): (r: Result<Writer, XamlError>)
    ensures |w.nodes| == 0 <==> r.Err?
    ensures r.Err? ==> r.error == NullReference
    ensures r.Ok? ==>
              && |r.value.nodes| == |w.nodes|
              && r.value.nodes[..|w.nodes| - 1] == w.nodes[..|w.nodes| - 1]
              && r.value.nodes[|w.nodes| - 1] == w.nodes[|w.nodes| - 1].(member := Some(m), setter := SetterFor(m))
              && r.value.statements == w.statements && r.value.nameCount == w.nameCount && r.value.top == w.top
  {
    if |w.nodes| == 0 then Err(NullReference)
    else
      var node := w.nodes[|w.nodes| - 1];
      Ok(w.(nodes := w.nodes[..|w.nodes| - 1] + [node.(member := Some(m), setter := SetterFor(m))]))
  }

  /** `WriteStartMember` as the source writes it. */
  function WriteStartMemberAsWritten(w: Writer, m: Member): (r: Result<Writer, XamlError>)
    ensures |w.nodes| == 0 <==> r.Err?
    ensures r.Err? ==> r.error == NullReference
    ensures r.Ok? ==>
              && |r.value.nodes| == |w.nodes|
              && r.value.nodes[..|w.nodes| - 1] == w.nodes[..|w.nodes| - 1]
              && r.value.nodes[|w.nodes| - 1] ==
                   w.nodes[|w.nodes| - 1].(member := Some(m), setter := SetterForAsWritten(m, w.nodes[|w.nodes| - 1].setter))
              && r.value.statements == w.statements && r.value.nameCount == w.nameCount && r.value.top == w.top
  {
    if |w.nodes| == 0 then Err(NullReference)
    else
      var node := w.nodes[|w.nodes| - 1];
      Ok(w.(nodes := w.nodes[..|w.nodes| - 1] + [node.(member := Some(m), setter := SetterForAsWritten(m, node.setter))]))
  }

  /** Writes a value into the top node through the action its open member installed. */
  function WriteValue(w: Writer, v: Value, show: nat -> string): (r: Result<Writer, XamlError>)
    ensures r.Err? <==> |w.nodes| > 0 && w.nodes[|w.nodes| - 1].setter in {ClassSetter, NameSetter} && v.Null?
    ensures r.Err? ==> r.error == NullReference
    ensures r.Ok? ==> |r.value.nodes| == |w.nodes| && r.value.statements == w.statements
    ensures r.Ok? && |w.nodes| > 0 ==> r.value.nodes[..|w.nodes| - 1] == w.nodes[..|w.nodes| - 1]
    ensures |w.nodes| == 0 || w.nodes[|w.nodes| - 1].setter == NoSetter ==> r == Ok(w)
    ensures r.Ok? && |w.nodes| > 0 && w.nodes[|w.nodes| - 1].setter.MemberSetter? ==>
              var node := w.nodes[|w.nodes| - 1];
              && r.value.nodes[|w.nodes| - 1].statements == node.statements + [AssignmentStmt(
                   MemberAccess(CurrentObject(w).0, node.setter.member.name), LiteralExpr(v))]
    // a regular member changes neither the generated class nor the top node's type, member or identifier
    ensures |w.nodes| > 0 && w.nodes[|w.nodes| - 1].setter.MemberSetter? ==>
              var node := w.nodes[|w.nodes| - 1];
              && r.Ok? && r.value.top == w.top
              && r.value.nodes[|w.nodes| - 1].(name := node.name, statements := node.statements) == node
    // `x:Class` declares the generated class afresh, dropping an earlier declaration and its fields
    ensures |w.nodes| > 0 && w.nodes[|w.nodes| - 1].setter == ClassSetter && !v.Null? ==>
              && r.Ok? && r.value.nodes == w.nodes && r.value.nameCount == w.nameCount
              && r.value.top == Some(ClassDecl(Display(v, show).value, w.nodes[|w.nodes| - 1].xtype.fullName, []))
    // `x:Name` records the identifier on the node and adds a field for it to the class;
    // a type with a name alias also assigns the value to that property
    ensures |w.nodes| > 0 && w.nodes[|w.nodes| - 1].setter == NameSetter && !v.Null? ==>
              var node := w.nodes[|w.nodes| - 1];
              var text := Display(v, show).value;
              && r.Ok?
              && r.value.top == AddField(w.top, Field(text, node.xtype.fullName))
              && r.value.nodes[|w.nodes| - 1].(name := node.name, statements := node.statements) == node.(id := Some(text))
              && (node.xtype.nameAlias.None? ==>
                    r.value.nodes[|w.nodes| - 1] == node.(id := Some(text)) && r.value.nameCount == w.nameCount)
              && (node.xtype.nameAlias.Some? ==>
                    r.value.nodes[|w.nodes| - 1].statements == node.statements + [AssignmentStmt(
                      MemberAccess(CurrentObject(w).0, node.xtype.nameAlias.value), LiteralExpr(v))])
  {
    if |w.nodes| == 0 then Ok(w)
    else
      var node := w.nodes[|w.nodes| - 1];
      match node.setter
      case NoSetter => Ok(w)
      case ClassSetter =>
        (match Display(v, show)
         case None => Err(NullReference)
         case Some(text) => Ok(w.(top := Some(ClassDecl(text, node.xtype.fullName, [])))))
      case NameSetter =>
        (match Display(v, show)
         case None => Err(NullReference)
         case Some(text) =>
           var w1 := w.(nodes := w.nodes[..|w.nodes| - 1] + [node.(id := Some(text))],
                        top := AddField(w.top, Field(text, node.xtype.fullName)));
           match node.xtype.nameAlias
           case None => Ok(w1)
           case Some(alias) =>
             var (target, w2) := CurrentObject(w1);
             Ok(AppendToTop(w2, AssignmentStmt(MemberAccess(target, alias), LiteralExpr(v)))))
      case MemberSetter(m) =>
        var (target, w1) := CurrentObject(w);
        Ok(AppendToTop(w1, AssignmentStmt(MemberAccess(target, m.name), LiteralExpr(v))))
  }

  /** The initializer of a local: `new T()`, or `id = new T()` when the node has a non-empty `x:Name`. */
  function Initializer(node: Node): (r: Expr)
  {
    if node.id.Some? && node.id.value != "" then
      AssignExpr(Identifier(node.id.value), ObjectCreation(node.xtype.fullName))
    else ObjectCreation(node.xtype.fullName)
  }

  /**
   * Pops the top node; if a parent remains, declares a local for the popped
   * node (named through the counters); then appends the node's statements.
   * Returns the writer and the local's name.
   */
  function PopNode(w: Writer): (r: (Writer, string))
    requires |w.nodes| > 0
    ensures r.0.nodes == w.nodes[..|w.nodes| - 1]
  {
    var node := w.nodes[|w.nodes| - 1];
    var w1 := w.(nodes := w.nodes[..|w.nodes| - 1]);
    if |w1.nodes| > 0 then
      var named := Naming.GetName(node.name, node.xtype.name, w1.nameCount);
      var w2 := w1.(statements := w1.statements + [LocalDeclaration(named.name, Initializer(node))], nameCount := named.counts);
      (w2.(statements := w2.statements + node.statements), named.name)
    else
      (w1.(statements := w1.statements + node.statements), "")
  }

  /** Assigns the local `localName` to the open member of the top node, unless that member is a collection. */
  function AttachToParent(w: Writer, localName: string): (r: Writer)
  {
    if |w.nodes| > 0 && w.nodes[|w.nodes| - 1].member.Some?
       && !w.nodes[|w.nodes| - 1].member.value.typeIsCollection then
      var m := w.nodes[|w.nodes| - 1].member.value;
      var (target, w') := CurrentObject(w);
      w'.(statements := w'.statements + [AssignmentStmt(MemberAccess(target, m.name), Identifier(localName))])
    else w
  }

  /**
   * Closes the top object: pops its node, emits its local and statements, and
   * attaches the local to the parent. Popping an empty stack throws.
   */
  function WriteEndObject(w: Writer): (r: Result<Writer, XamlError>)
    ensures |w.nodes| == 0 <==> r.Err?
    ensures r.Err? ==> r.error == EmptyStack
  {
    if |w.nodes| == 0 then Err(EmptyStack)
    else
      var (w', localName) := PopNode(w);
      Ok(AttachToParent(w', localName))
  }

  /**
   * `WriteEndObject` pops exactly one node. Below the popped node only the
   * parent can change, and only by getting a name. The generated statements
   * grow by: a local declaration (exactly when a parent remains, under the
   * popped node's name if it had one), then the node's statements, then an
   * assignment of that local to the parent's member (exactly when the parent
   * has an open member that is not a collection), on `this` for the root and
   * on the parent's local otherwise.
   */
  lemma WriteEndObjectShape(w: Writer)
    requires |w.nodes| > 0
    ensures var w' := WriteEndObject(w).value;
            var n := |w.nodes|;
            var node := w.nodes[n - 1];
            var k := |w.statements|;
            var declared := if n > 1 then 1 else 0;
            var assigns := n > 1 && w.nodes[n - 2].member.Some? && !w.nodes[n - 2].member.value.typeIsCollection;
            && |w'.nodes| == n - 1
            && w'.nodes[..n - 1 - declared] == w.nodes[..n - 1 - declared]
            && (n > 1 ==> w'.nodes[n - 2].(name := w.nodes[n - 2].name) == w.nodes[n - 2])
            && |w'.statements| == k + declared + |node.statements| + (if assigns then 1 else 0)
            && w'.statements[..k] == w.statements
            && w'.statements[k + declared..k + declared + |node.statements|] == node.statements
            && (n > 1 ==> w'.statements[k].LocalDeclaration?
                          && w'.statements[k].init == Initializer(node)
                          && (node.name.Some? ==> w'.statements[k].name == node.name.value))
            && (assigns ==> w'.statements[|w'.statements| - 1].AssignmentStmt?
                             && w'.statements[|w'.statements| - 1].value == Identifier(w'.statements[k].name)
                             && w'.statements[|w'.statements| - 1].target.MemberAccess?
                             && w'.statements[|w'.statements| - 1].target.member == w.nodes[n - 2].member.value.name
                             && w'.statements[|w'.statements| - 1].target.target ==
                                  (if n == 2 then ThisExpr else Identifier(w'.nodes[n - 2].name.value)))
  {
  }
}
