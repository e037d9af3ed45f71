/**
 * Distinctness of the locals the code-generating writer declares. The
 * invariant `Wf` says: the names already declared and the names held by open
 * nodes are pairwise distinct, and each was handed out by the name counters.
 * Every write operation keeps it, so no event sequence declares one local twice.
 */
module LocalNames {
  import opened Wrappers
  import opened XamlModel
  import opened CodeGen
  import Naming

  /** The names of the local declarations among `stmts`, in order. */
  function DeclaredNames(stmts: seq<Stmt>): (r: seq<string>)
    decreases |stmts|
  {
    if stmts == [] then []
    else (if stmts[0].LocalDeclaration? then [stmts[0].name] else []) + DeclaredNames(stmts[1..])
  }

  lemma {:induction false} DeclaredNamesAppend(a: seq<Stmt>, b: seq<Stmt>)
    ensures DeclaredNames(a + b) == DeclaredNames(a) + DeclaredNames(b)
    decreases |a|
  {
    if a == [] {
      assert a + b == b;
    } else {
      assert (a + b)[0] == a[0];
      assert (a + b)[1..] == a[1..] + b;
      DeclaredNamesAppend(a[1..], b);
    }
  }

  /** The name of a node, if it has one. */
  function NameOf(node: Node): (r: seq<string>)
  {
    if node.name.Some? then [node.name.value] else []
  }

  /** The names held by the nodes of a stack, bottom first. */
  function StackNames(nodes: seq<Node>): (r: seq<string>)
    decreases |nodes|
  {
    if nodes == [] then [] else StackNames(nodes[..|nodes| - 1]) + NameOf(nodes[|nodes| - 1])
  }

  lemma StackNamesPush(nodes: seq<Node>, node: Node)
    ensures StackNames(nodes + [node]) == StackNames(nodes) + NameOf(node)
  {
    assert (nodes + [node])[..|nodes|] == nodes;
  }

  /** Every name in play: declared locals and names of open nodes. */
  ghost function AllNames(w: Writer): (r: multiset<string>)
  {
    multiset(DeclaredNames(w.statements)) + multiset(StackNames(w.nodes))
  }

  ghost predicate Distinct(names: multiset<string>)
  {
    forall x :: x in names ==> names[x] == 1
  }

  ghost predicate AllIssued(names: multiset<string>, counts: map<string, nat>)
  {
    forall x :: x in names ==> Naming.Issued(counts, x)
  }

  ghost predicate NodesDeclareNothing(nodes: seq<Node>)
  {
    forall i :: 0 <= i < |nodes| ==> DeclaredNames(nodes[i].statements) == []
  }

  /** The writer's naming invariant. */
  ghost predicate Wf(w: Writer)
  {
    && NodesDeclareNothing(w.nodes)
    && Distinct(AllNames(w))
    && AllIssued(AllNames(w), w.nameCount)
  }

  /** Adding a name that was never issued, while issuing it, keeps the names distinct and issued. */
  lemma AddFreshName(names: multiset<string>, counts: map<string, nat>, counts': map<string, nat>, name: string)
    requires Distinct(names) && AllIssued(names, counts)
    requires !Naming.Issued(counts, name)
    requires forall x :: Naming.Issued(counts', x) <==> Naming.Issued(counts, x) || x == name
    ensures Distinct(names + multiset{name}) && AllIssued(names + multiset{name}, counts')
  {
    assert name !in names;
    forall x | x in names + multiset{name} ensures Naming.Issued(counts', x) {
      if x != name {
        assert x in names;
        assert Naming.Issued(counts, x);
      }
    }
  }

  /** Dropping names keeps the rest distinct and issued. */
  lemma SubNames(names: multiset<string>, names': multiset<string>, counts: map<string, nat>)
    requires Distinct(names) && AllIssued(names, counts)
    requires names' <= names
    ensures Distinct(names') && AllIssued(names', counts)
  {
  }

  lemma EmptyWriterWf()
    ensures Wf(EmptyWriter)
  {
  }

  /** Changing a writer without changing the names in play, the counters or the nodes' declarations keeps `Wf`. */
  lemma SameNamesKeepWf(w: Writer, w': Writer)
    requires Wf(w)
    requires DeclaredNames(w'.statements) == DeclaredNames(w.statements)
    requires StackNames(w'.nodes) == StackNames(w.nodes)
    requires w'.nameCount == w.nameCount
    requires NodesDeclareNothing(w'.nodes)
    ensures Wf(w')
  {
    assert AllNames(w') == AllNames(w);
  }

  /** Naming an unnamed top node puts exactly its new name into play. */
  lemma NameTopNames(w: Writer)
    requires |w.nodes| > 0 && w.nodes[|w.nodes| - 1].name.None?
    ensures AllNames(NameTop(w).1) == AllNames(w) + multiset{NameTop(w).0}
  {
    var n := |w.nodes|;
    var p := w.nodes[..n - 1];
    var w' := NameTop(w).1;
    assert w.nodes == p + [w.nodes[n - 1]];
    assert w'.nodes == p + [w'.nodes[n - 1]];
    StackNamesPush(p, w.nodes[n - 1]);
    StackNamesPush(p, w'.nodes[n - 1]);
  }

  lemma NameTopDeclaresNothing(w: Writer)
    requires |w.nodes| > 0 && NodesDeclareNothing(w.nodes)
    ensures NodesDeclareNothing(NameTop(w).1.nodes)
  {
    var n := |w.nodes|;
    var w' := NameTop(w).1;
    forall i | 0 <= i < n ensures DeclaredNames(w'.nodes[i].statements) == [] {
      if i < n - 1 {
        assert w'.nodes[i] == w'.nodes[..n - 1][i] == w.nodes[..n - 1][i];
      }
    }
  }

  /** Naming the top node keeps `Wf`: a fresh name is not among the names in play. */
  lemma NameTopKeepsWf(w: Writer)
    requires Wf(w) && |w.nodes| > 0
    ensures Wf(NameTop(w).1)
  {
    var node := w.nodes[|w.nodes| - 1];
    if node.name.None? {
      var named := Naming.GetName(node.name, node.xtype.name, w.nameCount);
      assert NameTop(w).0 == named.name && NameTop(w).1.nameCount == named.counts;
      NameTopNames(w);
      Naming.GetNameIsFresh(node.name, node.xtype.name, w.nameCount);
      AddFreshName(AllNames(w), w.nameCount, named.counts, named.name);
      NameTopDeclaresNothing(w);
    }
  }

  lemma CurrentObjectKeepsWf(w: Writer)
    requires Wf(w) && |w.nodes| > 0
    ensures Wf(CurrentObject(w).1)
  {
    if |w.nodes| > 1 {
      NameTopKeepsWf(w);
    }
  }

  /** Appending statements that declare nothing keeps `Wf`. */
  lemma AppendKeepsWf(w: Writer, stmts: seq<Stmt>)
    requires Wf(w)
    requires DeclaredNames(stmts) == []
    ensures Wf(w.(statements := w.statements + stmts))
  {
    DeclaredNamesAppend(w.statements, stmts);
    SameNamesKeepWf(w, w.(statements := w.statements + stmts));
  }

  /** Replacing the top node by one with the same name and no declarations keeps `Wf`. */
  lemma ReplaceTopKeepsWf(w: Writer, node': Node)
    requires Wf(w) && |w.nodes| > 0
    requires node'.name == w.nodes[|w.nodes| - 1].name
    requires DeclaredNames(node'.statements) == []
    ensures Wf(w.(nodes := w.nodes[..|w.nodes| - 1] + [node']))
  {
    var p := w.nodes[..|w.nodes| - 1];
    assert w.nodes == p + [w.nodes[|w.nodes| - 1]];
    StackNamesPush(p, w.nodes[|w.nodes| - 1]);
    StackNamesPush(p, node');
    var w' := w.(nodes := p + [node']);
    assert NodesDeclareNothing(w'.nodes) by {
      forall i | 0 <= i < |w'.nodes| ensures DeclaredNames(w'.nodes[i].statements) == [] {
        if i < |p| {
          assert w'.nodes[i] == w.nodes[i];
        }
      }
    }
    SameNamesKeepWf(w, w');
  }

  lemma AppendToTopKeepsWf(w: Writer, st: Stmt)
    requires Wf(w) && |w.nodes| > 0
    requires !st.LocalDeclaration?
    ensures Wf(AppendToTop(w, st))
  {
    var node := w.nodes[|w.nodes| - 1];
    DeclaredNamesAppend(node.statements, [st]);
    ReplaceTopKeepsWf(w, node.(statements := node.statements + [st]));
  }

  lemma WriteStartObjectKeepsWf(w: Writer, t: XType)
    requires Wf(w)
    ensures Wf(WriteStartObject(w, t))
  {
    StackNamesPush(w.nodes, Node(t, None, None, None, NoSetter, []));
    SameNamesKeepWf(w, WriteStartObject(w, t));
  }

  lemma WriteStartMemberKeepsWf(w: Writer, m: Member)
    requires Wf(w)
    ensures WriteStartMember(w, m).Ok? ==> Wf(WriteStartMember(w, m).value)
  {
    if |w.nodes| > 0 {
      var node := w.nodes[|w.nodes| - 1];
      ReplaceTopKeepsWf(w, node.(member := Some(m), setter := SetterFor(m)));
    }
  }

  lemma WriteValueKeepsWf(w: Writer, v: Value, show: nat -> string)
    requires Wf(w)
    ensures WriteValue(w, v, show).Ok? ==> Wf(WriteValue(w, v, show).value)
  {
    if |w.nodes| > 0 && WriteValue(w, v, show).Ok? {
      var node := w.nodes[|w.nodes| - 1];
      match node.setter
      case NoSetter =>
      case ClassSetter =>
        SameNamesKeepWf(w, WriteValue(w, v, show).value);
      case NameSetter =>
        var text := Display(v, show).value;
        ReplaceTopKeepsWf(w, node.(id := Some(text)));
        var w1 := w.(nodes := w.nodes[..|w.nodes| - 1] + [node.(id := Some(text))],
                     top := AddField(w.top, Field(text, node.xtype.fullName)));
        SameNamesKeepWf(w.(nodes := w.nodes[..|w.nodes| - 1] + [node.(id := Some(text))]), w1);
        if node.xtype.nameAlias.Some? {
          CurrentObjectKeepsWf(w1);
          var (target, w2) := CurrentObject(w1);
          AppendToTopKeepsWf(w2, AssignmentStmt(MemberAccess(target, node.xtype.nameAlias.value), LiteralExpr(v)));
        }
      case MemberSetter(m) =>
        CurrentObjectKeepsWf(w);
        var (target, w1) := CurrentObject(w);
        AppendToTopKeepsWf(w1, AssignmentStmt(MemberAccess(target, m.name), LiteralExpr(v)));
    }
  }

  /** Popping the top node takes its name, if any, out of play. */
  lemma PopNames(w: Writer)
    requires |w.nodes| > 0
    ensures AllNames(w) == AllNames(w.(nodes := w.nodes[..|w.nodes| - 1])) + multiset(NameOf(w.nodes[|w.nodes| - 1]))
  {
    var p := w.nodes[..|w.nodes| - 1];
    assert w.nodes == p + [w.nodes[|w.nodes| - 1]];
    StackNamesPush(p, w.nodes[|w.nodes| - 1]);
  }

  /** Popping the root node keeps `Wf`: its name, if any, leaves play. */
  lemma PopRootKeepsWf(w: Writer)
    requires Wf(w) && |w.nodes| == 1
    ensures Wf(PopNode(w).0)
  {
    var node := w.nodes[0];
    var w1 := w.(nodes := []);
    PopNames(w);
    SubNames(AllNames(w), AllNames(w1), w.nameCount);
    assert DeclaredNames(node.statements) == [];
    AppendKeepsWf(w1, node.statements);
  }

  /** Declaring a local puts its name into play. */
  lemma DeclareNames(w: Writer, name: string, init: Expr, counts: map<string, nat>)
    ensures AllNames(w.(statements := w.statements + [LocalDeclaration(name, init)], nameCount := counts))
            == AllNames(w) + multiset{name}
  {
    DeclaredNamesAppend(w.statements, [LocalDeclaration(name, init)]);
    assert DeclaredNames([LocalDeclaration(name, init)]) == [name];
  }

  /** The local declared for a popped node carries the node's own name or a fresh one. */
  lemma {:induction false} LocalNameKeepsNamesDistinct(w: Writer)
    requires Wf(w) && |w.nodes| > 1
    ensures var node := w.nodes[|w.nodes| - 1];
            var named := Naming.GetName(node.name, node.xtype.name, w.nameCount);
            var w2 := w.(nodes := w.nodes[..|w.nodes| - 1],
                         statements := w.statements + [LocalDeclaration(named.name, Initializer(node))],
                         nameCount := named.counts);
            Distinct(AllNames(w2)) && AllIssued(AllNames(w2), named.counts)
  {
    var node := w.nodes[|w.nodes| - 1];
    var w1 := w.(nodes := w.nodes[..|w.nodes| - 1]);
    var named := Naming.GetName(node.name, node.xtype.name, w.nameCount);
    PopNames(w);
    DeclareNames(w1, named.name, Initializer(node), named.counts);
    Naming.GetNameIsFresh(node.name, node.xtype.name, w.nameCount);
    SubNames(AllNames(w), AllNames(w1), w.nameCount);
    if node.name.None? {
      AddFreshName(AllNames(w1), w.nameCount, named.counts, named.name);
    }
  }

  /** Declaring the local of a popped child keeps `Wf`. */
  lemma DeclareLocalKeepsWf(w: Writer)
    requires Wf(w) && |w.nodes| > 1
    ensures var node := w.nodes[|w.nodes| - 1];
            var named := Naming.GetName(node.name, node.xtype.name, w.nameCount);
            Wf(w.(nodes := w.nodes[..|w.nodes| - 1],
                  statements := w.statements + [LocalDeclaration(named.name, Initializer(node))],
                  nameCount := named.counts))
  {
    LocalNameKeepsNamesDistinct(w);
    var w2 := w.(nodes := w.nodes[..|w.nodes| - 1]);
    assert NodesDeclareNothing(w2.nodes) by {
      forall i | 0 <= i < |w2.nodes| ensures DeclaredNames(w2.nodes[i].statements) == [] {
        assert w2.nodes[i] == w.nodes[i];
      }
    }
  }

  lemma PopNodeKeepsWf(w: Writer)
    requires Wf(w) && |w.nodes| > 0
    ensures Wf(PopNode(w).0)
  {
    if |w.nodes| == 1 {
      PopRootKeepsWf(w);
    } else {
      var node := w.nodes[|w.nodes| - 1];
      var named := Naming.GetName(node.name, node.xtype.name, w.nameCount);
      var w2 := w.(nodes := w.nodes[..|w.nodes| - 1],
                   statements := w.statements + [LocalDeclaration(named.name, Initializer(node))],
                   nameCount := named.counts);
      DeclareLocalKeepsWf(w);
      assert DeclaredNames(node.statements) == [];
      AppendKeepsWf(w2, node.statements);
      assert PopNode(w).0 == w2.(statements := w2.statements + node.statements);
    }
  }

  lemma AttachToParentKeepsWf(w: Writer, localName: string)
    requires Wf(w)
    ensures Wf(AttachToParent(w, localName))
  {
    if |w.nodes| > 0 && w.nodes[|w.nodes| - 1].member.Some?
       && !w.nodes[|w.nodes| - 1].member.value.typeIsCollection {
      var m := w.nodes[|w.nodes| - 1].member.value;
      CurrentObjectKeepsWf(w);
      var (target, w') := CurrentObject(w);
      AppendKeepsWf(w', [AssignmentStmt(MemberAccess(target, m.name), Identifier(localName))]);
    }
  }

  lemma WriteEndObjectKeepsWf(w: Writer)
    requires Wf(w)
    ensures WriteEndObject(w).Ok? ==> Wf(WriteEndObject(w).value)
  {
    if |w.nodes| > 0 {
      PopNodeKeepsWf(w);
      AttachToParentKeepsWf(PopNode(w).0, PopNode(w).1);
    }
  }

  /** Two equal entries of a sequence occur twice in its multiset. */
  lemma RepeatedEntry(s: seq<string>, i: nat, j: nat)
    requires i < j < |s| && s[i] == s[j]
    ensures multiset(s)[s[i]] >= 2
  {
    assert s == s[..j] + [s[j]] + s[j + 1..];
    assert s[i] in s[..j];
  }

  /** Under `Wf`, no two local declarations share a name. */
  lemma DeclarationsDistinct(w: Writer)
    requires Wf(w)
    ensures var names := DeclaredNames(w.statements);
            forall i, j :: 0 <= i < j < |names| ==> names[i] != names[j]
  {
    var names := DeclaredNames(w.statements);
    forall i, j | 0 <= i < j < |names| ensures names[i] != names[j] {
      assert names[i] in multiset(names);
      assert AllNames(w)[names[i]] == 1;
      if names[i] == names[j] {
        RepeatedEntry(names, i, j);
      }
    }
  }

  /*** Event sequences ***/

  /** The write events the code-generating writer consumes. */
  datatype Event = StartObject(xtype: XType) | StartMember(member: Member) | WriteVal(value: Value) | EndObject

  /** Applies one event. */
  function Step(w: Writer, e: Event, show: nat -> string): (r: Result<Writer, XamlError>)
  {
    match e
    case StartObject(t) => Ok(WriteStartObject(w, t))
    case StartMember(m) => WriteStartMember(w, m)
    case WriteVal(v) => WriteValue(w, v, show)
    case EndObject => WriteEndObject(w)
  }

  /** Applies `events` in order, stopping at the first exception. */
  function Run(w: Writer, events: seq<Event>, show: nat -> string): (r: Result<Writer, XamlError>)
    decreases |events|
  {
    if events == [] then Ok(w)
    else
      match Step(w, events[0], show)
      case Err(e) => Err(e)
      case Ok(w') => Run(w', events[1..], show)
  }

  lemma StepKeepsWf(w: Writer, e: Event, show: nat -> string)
    requires Wf(w)
    ensures Step(w, e, show).Ok? ==> Wf(Step(w, e, show).value)
  {
    match e
    case StartObject(t) => WriteStartObjectKeepsWf(w, t);
    case StartMember(m) => WriteStartMemberKeepsWf(w, m);
    case WriteVal(v) => WriteValueKeepsWf(w, v, show);
    case EndObject => WriteEndObjectKeepsWf(w);
  }

  /** Every event sequence keeps the invariant. */
  lemma {:induction false} RunKeepsWf(w: Writer, events: seq<Event>, show: nat -> string)
    requires Wf(w)
    ensures Run(w, events, show).Ok? ==> Wf(Run(w, events, show).value)
    decreases |events|
  {
    if events != [] {
      StepKeepsWf(w, events[0], show);
      if Step(w, events[0], show).Ok? {
        RunKeepsWf(Step(w, events[0], show).value, events[1..], show);
      }
    }
  }

  /** Starting from a fresh writer, no event sequence declares the same local twice. */
  lemma GeneratedLocalsDistinct(events: seq<Event>, show: nat -> string)
    ensures Run(EmptyWriter, events, show).Ok? ==>
              var names := DeclaredNames(Run(EmptyWriter, events, show).value.statements);
              forall i, j :: 0 <= i < j < |names| ==> names[i] != names[j]
  {
    EmptyWriterWf();
    RunKeepsWf(EmptyWriter, events, show);
    if Run(EmptyWriter, events, show).Ok? {
      DeclarationsDistinct(Run(EmptyWriter, events, show).value);
    }
  }

  /*** Values written under directives ***/

  /**
   * As the source installs member actions, a value written under a directive
   * other than `x:Class` and `x:Name` runs the previous member's action and is
   * emitted as an assignment to that member.
   */
  lemma DirectiveValueReachesPreviousMemberAsWritten(t: XType, m: Member, d: Member, text: string, show: nat -> string)
    requires !m.isDirective
    requires d.isDirective && d != ClassDirective && d != NameDirective
    ensures var w1 := WriteStartMemberAsWritten(WriteStartObject(EmptyWriter, t), m).value;
            var w2 := WriteStartMemberAsWritten(w1, d).value;
            WriteValue(w2, Text(text), show) ==
              Ok(AppendToTop(w2, AssignmentStmt(MemberAccess(ThisExpr, m.name), LiteralExpr(Text(text)))))
  {
  }

  /** With the corrected actions, a value written under any other directive changes nothing. */
  lemma OtherDirectiveValuesIgnored(w: Writer, d: Member, v: Value, show: nat -> string)
    requires |w.nodes| > 0
    requires d.isDirective && d != ClassDirective && d != NameDirective
    ensures WriteStartMember(w, d).Ok?
    ensures var w1 := WriteStartMember(w, d).value;
            WriteValue(w1, v, show) == Ok(w1)
  {
  }

  /** Closing the innermost of three open nodes declares its local and attaches it to the middle node's local. */
  lemma CloseInnermost(nr: Node, p: XType, m2: Member, c: XType, show: nat -> string)
    requires !m2.isDirective && !m2.typeIsCollection && p.name != c.name
    ensures var np := Node(p, Some(m2), None, None, MemberSetter(m2), []);
            var localP := Naming.UniqueName(p.name, 1);
            var localC := Naming.UniqueName(c.name, 1);
            Step(Writer([nr, np, Node(c, None, None, None, NoSetter, [])], [], map[], None), EndObject, show) ==
              Ok(Writer([nr, np.(name := Some(localP))],
                        [LocalDeclaration(localC, ObjectCreation(c.fullName)),
                         AssignmentStmt(MemberAccess(Identifier(localP), m2.name), Identifier(localC))],
                        map[c.name := 1][p.name := 1], None))
  {
    var np := Node(p, Some(m2), None, None, MemberSetter(m2), []);
    var nc := Node(c, None, None, None, NoSetter, []);
    var localP := Naming.UniqueName(p.name, 1);
    var localC := Naming.UniqueName(c.name, 1);
    var counts1 := map[c.name := 1];
    var w5 := Writer([nr, np, nc], [], map[], None);
    assert w5.nodes[..2] == [nr, np];
    assert Naming.NextCount(map[], c.name) == 1;
    assert Naming.GetName(None, c.name, map[]) == Naming.Named(localC, counts1);
    assert Initializer(nc) == ObjectCreation(c.fullName);
    assert [] + [LocalDeclaration(localC, ObjectCreation(c.fullName))] + [] == [LocalDeclaration(localC, ObjectCreation(c.fullName))];
    var wp := Writer([nr, np], [LocalDeclaration(localC, ObjectCreation(c.fullName))], counts1, None);
    assert PopNode(w5) == (wp, localC);
    assert p.name !in counts1 && Naming.NextCount(counts1, p.name) == 1;
    assert Naming.GetName(None, p.name, counts1) == Naming.Named(localP, counts1[p.name := 1]);
    assert [nr, np][..1] + [np.(name := Some(localP))] == [nr, np.(name := Some(localP))];
    assert CurrentObject(wp) == (Identifier(localP), wp.(nodes := [nr, np.(name := Some(localP))], nameCount := counts1[p.name := 1]));
    var w6 := Writer([nr, np.(name := Some(localP))],
                     [LocalDeclaration(localC, ObjectCreation(c.fullName)),
                      AssignmentStmt(MemberAccess(Identifier(localP), m2.name), Identifier(localC))],
                     counts1[p.name := 1], None);
    assert AttachToParent(wp, localC) == w6;
    assert WriteEndObject(w5) == Ok(w6);
  }

  /** Closing a named middle node under the root declares its local and assigns it to the root's member through `this`. */
  lemma CloseMiddle(r: XType, m1: Member, np: Node, localP: string, stmts: seq<Stmt>, counts: map<string, nat>, show: nat -> string)
    requires !m1.isDirective && !m1.typeIsCollection
    requires np.name == Some(localP) && np.id.None? && np.statements == []
    ensures var nr := Node(r, Some(m1), None, None, MemberSetter(m1), []);
            Step(Writer([nr, np], stmts, counts, None), EndObject, show) ==
              Ok(Writer([nr], stmts + [LocalDeclaration(localP, ObjectCreation(np.xtype.fullName)),
                                       AssignmentStmt(MemberAccess(ThisExpr, m1.name), Identifier(localP))],
                        counts, None))
  {
    var nr := Node(r, Some(m1), None, None, MemberSetter(m1), []);
    var w6 := Writer([nr, np], stmts, counts, None);
    assert w6.nodes[..1] == [nr];
    assert Initializer(np) == ObjectCreation(np.xtype.fullName);
    var wq := Writer([nr], stmts + [LocalDeclaration(localP, ObjectCreation(np.xtype.fullName))], counts, None);
    assert stmts + [LocalDeclaration(localP, ObjectCreation(np.xtype.fullName))] + [] == wq.statements;
    assert PopNode(w6) == (wq, localP);
    assert CurrentObject(wq) == (ThisExpr, wq);
    var w7 := Writer([nr], stmts + [LocalDeclaration(localP, ObjectCreation(np.xtype.fullName)),
                                    AssignmentStmt(MemberAccess(ThisExpr, m1.name), Identifier(localP))], counts, None);
    assert wq.statements + [AssignmentStmt(MemberAccess(ThisExpr, m1.name), Identifier(localP))] == w7.statements;
    assert AttachToParent(wq, localP) == w7;
    assert WriteEndObject(w6) == Ok(w7);
  }

  /**
   * A child's attachment is emitted when the child closes, but its parent's
   * local is declared only when the parent closes: for nested objects
   * `R > P > C` the generated method assigns through `P`'s local before
   * declaring it.
   */
  lemma ParentLocalUsedBeforeDeclaration(r: XType, p: XType, c: XType, m1: Member, m2: Member, show: nat -> string)
    requires !m1.isDirective && !m1.typeIsCollection && !m2.isDirective && !m2.typeIsCollection
    requires p.name != c.name
    ensures var events := [StartObject(r), StartMember(m1), StartObject(p), StartMember(m2),
                           StartObject(c), EndObject, EndObject];
            var localP := Naming.UniqueName(p.name, 1);
            var localC := Naming.UniqueName(c.name, 1);
            && Run(EmptyWriter, events, show).Ok?
            && Run(EmptyWriter, events, show).value.statements ==
                 [ LocalDeclaration(localC, ObjectCreation(c.fullName)),
                   AssignmentStmt(MemberAccess(Identifier(localP), m2.name), Identifier(localC)),
                   LocalDeclaration(localP, ObjectCreation(p.fullName)),
                   AssignmentStmt(MemberAccess(ThisExpr, m1.name), Identifier(localP)) ]
  {
    var events := [StartObject(r), StartMember(m1), StartObject(p), StartMember(m2),
                   StartObject(c), EndObject, EndObject];
    var localP := Naming.UniqueName(p.name, 1);
    var localC := Naming.UniqueName(c.name, 1);
    var nr0 := Node(r, None, None, None, NoSetter, []);
    var np0 := Node(p, None, None, None, NoSetter, []);
    var nr := Node(r, Some(m1), None, None, MemberSetter(m1), []);
    var np := Node(p, Some(m2), None, None, MemberSetter(m2), []);
    var nc := Node(c, None, None, None, NoSetter, []);
    var w1 := Writer([nr0], [], map[], None);
    var w2 := Writer([nr], [], map[], None);
    var w3 := Writer([nr, np0], [], map[], None);
    var w4 := Writer([nr, np], [], map[], None);
    var w5 := Writer([nr, np, nc], [], map[], None);
    assert Step(EmptyWriter, events[0], show) == Ok(w1);
    assert Step(w1, events[1], show) == Ok(w2);
    assert [nr] + [np0] == [nr, np0];
    assert Step(w2, events[2], show) == Ok(w3);
    assert [nr, np0][..1] + [np] == [nr, np];
    assert Step(w3, events[3], show) == Ok(w4);
    assert [nr, np] + [nc] == [nr, np, nc];
    assert Step(w4, events[4], show) == Ok(w5);
    CloseInnermost(nr, p, m2, c, show);
    var w6 := Writer([nr, np.(name := Some(localP))],
                     [LocalDeclaration(localC, ObjectCreation(c.fullName)),
                      AssignmentStmt(MemberAccess(Identifier(localP), m2.name), Identifier(localC))],
                     map[c.name := 1][p.name := 1], None);
    CloseMiddle(r, m1, np.(name := Some(localP)), localP, w6.statements, w6.nameCount, show);
    var w7 := Writer([nr],
                     w6.statements + [LocalDeclaration(localP, ObjectCreation(p.fullName)),
                                      AssignmentStmt(MemberAccess(ThisExpr, m1.name), Identifier(localP))],
                     w6.nameCount, None);
    assert Run(w7, events[7..], show) == Ok(w7);
    assert Run(w6, events[6..], show) == Ok(w7);
    assert Run(w5, events[5..], show) == Ok(w7);
    assert Run(w4, events[4..], show) == Ok(w7);
    assert Run(w3, events[3..], show) == Ok(w7);
    assert Run(w2, events[2..], show) == Ok(w7);
    assert Run(w1, events[1..], show) == Ok(w7);
    assert Run(EmptyWriter, events, show) == Ok(w7);
  }
}
