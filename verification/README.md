# Portable.Xaml code-generating writer: a Dafny model

Portable.Xaml turns a stream of XAML write events (start object, start member,
value, end member, end object) into objects. `RoslynWriter` consumes the same
stream to generate C# source. It is built from two parts, and this project
models the logic of both:

- **`XamlRoslynWriterInternal`** (module `ObjectWriter`). This part holds the
  object states.
  - `InitializeObjectIfRequired` decides whether the top object state is
    instantiated now or later. The object may get a mutable stand-in, be built
    from its constructor-argument members, or be built and then have its other
    written properties replayed onto it.
  - `SetValue` is the member-assignment guard.
  - Both are private, and nothing outside these methods calls them: the `On*`
    overrides never do. So the write events cannot reach this module; it models
    the construction policy as the code states it.
- **`RoslynWriter`** (modules `CodeGen`, `Naming`, `LocalNames`). This part
  keeps a stack of `Node`s, one per open object, plus the statements of the
  generated `InitializeComponent` method. Each node gets a memoised synthetic
  local name from a per-type-name counter.

Conventions of the model:

- Every external capability is a black box. `CreateInstance`, `ToMutable`,
  `GetSortedConstructorArguments` and the member setter are the function-typed
  fields of `XamlModel.Invoker`. The flags of `XamlMember` and `XamlType` are
  fields of `Member` and `XType`.
- A C# exception becomes a value. A writer operation returns an `Outcome`: the
  top object state, the setter calls it made in order, and the error it raised,
  if any. On an error, the state is the one at the point of failure, because the
  source does not roll back.
- A null dereference in the source is the `NullReference` error, and `Peek` or
  `Pop` on an empty stack is `EmptyStack`. Callers are not required to avoid
  these cases. An operation that returns before it consults the stack does not
  fail on an empty one: `SetValue` ignores a directive other than the factory
  method without calling `Peek`.
- Generated syntax is the abstract `Expr`/`Stmt` datatypes.

Behaviour of the source that a reader might not expect, and that the model
follows:

- Construction is deferred whenever the type needs constructor arguments and the
  caller does not force completion. The model does not count how many arguments
  have been written. (`src/Portable.Xaml.Roslyn/RoslynWriter.cs:296-297`.)
- A factory method on the construction path always fails (`NotImplemented`), and
  the object stays pending.
- When written properties are replayed after argument construction, each one
  goes through the 2-argument `SetValue`. Its guard looks at the member that is
  *currently open* on the object, not at the property being replayed. So if that
  open member is already set, every replayed property is dropped
  (`ObjectWriter.ReplayDropsAllWhenOpenMemberIsSet`).
- A child object's assignment to its parent goes straight into the method's
  statements when the child closes. But the parent's local is declared only when
  the parent closes. So with three nested objects the generated method assigns
  through the middle object's local before declaring it
  (`LocalNames.ParentLocalUsedBeforeDeclaration`).

## Model

| member | source | states |
|---|---|---|
| ObjectWriter.InvokeSetter | src/Portable.Xaml.Roslyn/RoslynWriter.cs:370-380 | The setter is called on the target. It records a setter call exactly when the setter returns normally. Otherwise it fails with a member-assignment error that names the member and carries the setter's message. |
| ObjectWriter.SetValue | src/Portable.Xaml.Roslyn/RoslynWriter.cs:354-368 | The factory-method directive only records its string (or null) on the state, and a non-string value is a cast error. Other directives change nothing. A regular member is assigned exactly when the object is instantiated, the open member is not already set, and the parent did not provide the object while the open member is a collection. Null open-member state fails with a null reference. |
| ObjectWriter.Replay | src/Portable.Xaml.Roslyn/RoslynWriter.cs:332-338 | Replaying properties changes no state field except the factory method. Every setter call targets the constructed object, and every call is for a settable property taken from the replayed list. |
| ObjectWriter.ReplayAssignsInWrittenOrder | src/Portable.Xaml.Roslyn/RoslynWriter.cs:332-338 | Suppose the guard is open and the replayed list cannot fail: it holds no read-only constructor argument, no settable property whose setter throws, and no non-string factory-method value. Then the replay succeeds. The setter calls are exactly the writable, non-directive properties, in written order. |
| ObjectWriter.ReplayStopsAtReadOnlyConstructorArgument | src/Portable.Xaml.Roslyn/RoslynWriter.cs:334-337 | With the guard open and a prefix that cannot fail, the first read-only constructor-argument property stops the replay with an error naming its member. Every settable property before it has already been assigned, in order. |
| ObjectWriter.ReplayDropsAllWhenOpenMemberIsSet | src/Portable.Xaml.Roslyn/RoslynWriter.cs:364-366 | When the member open on the object is already set, the replay makes no setter call at all, for every list. It also succeeds when the list cannot fail. |
| ObjectWriter.ConstructorArgumentsSelection | src/Portable.Xaml.Roslyn/RoslynWriter.cs:317 | The sorter receives exactly the written properties whose member is a constructor argument, in written order, each as many times as it was written. |
| ObjectWriter.UnconsumedSelection | src/Portable.Xaml.Roslyn/RoslynWriter.cs:332 | The replayed properties are exactly the written properties whose member equals no sorted argument's member, in written order, each as many times as it was written. |
| ObjectWriter.ConstructWithArguments | src/Portable.Xaml.Roslyn/RoslynWriter.cs:315-339 | If the sorter returns null, construction fails with "constructor not found", naming the type, and the state is unchanged. Otherwise the object is instantiated with `CreateInstance` applied to the sorted arguments' values in the sorter's order. Every later setter call targets it with an unconsumed written property. |
| ObjectWriter.InitializeObjectIfRequired | src/Portable.Xaml.Roslyn/RoslynWriter.cs:289-351 | An instantiated state is returned unchanged. Otherwise only the value, the instantiated flag and the factory method can change. The deferral rule: a deferred type stays pending unless it is immutable and `ToMutable(null)` gives a stand-in, which becomes the value. A factory method on the construction path fails and changes nothing. A type without required arguments is instantiated from `CreateInstance(null)`, passed through `ToMutable` when the type is immutable. |
| ObjectWriter.PendingIff | src/Portable.Xaml.Roslyn/RoslynWriter.cs:296-322 | A pending object stays pending in exactly two cases. (1) It is deferred without a stand-in. (2) It is not deferred, and either it has a factory method or the sorter finds no constructor. When it stays pending, the state is unchanged and no setter runs. |
| ObjectWriter.ForcedInitializationCompletes | src/Portable.Xaml.Roslyn/RoslynWriter.cs:296-297 | With `required` set and no wait for parameters, the object is instantiated or an error is raised. It is never left silently pending. |
| ObjectWriter.InitializeIdempotent | src/Portable.Xaml.Roslyn/RoslynWriter.cs:291-293 | After a successful call, a second call with the same arguments changes nothing. |
| ObjectWriter.ArgumentConstructionAssignsRemainder | src/Portable.Xaml.Roslyn/RoslynWriter.cs:317-338 | With the guard open on the new object and a replay that cannot fail: the instance is built from the sorter's values in the sorter's order. Then exactly the settable written properties that no argument consumed are assigned to it, in written order. |
| ObjectWriter.InitializeTop | src/Portable.Xaml.Roslyn/RoslynWriter.cs:291 | Initialization acts on the top of the state stack only, and the entries below it are untouched. An empty stack fails. |
| ObjectWriter.SetValueOnTop | src/Portable.Xaml.Roslyn/RoslynWriter.cs:354-368 | The guard acts on the top of the state stack only, and the entries below it are untouched. A directive other than the factory method succeeds without effect on any stack, an empty one included. On an empty stack the factory-method directive and every regular member fail with `EmptyStack`. |
| Sequences.FilterIsSubsequence | src/Portable.Xaml.Roslyn/RoslynWriter.cs:332 | A `Where` selection keeps its input's relative order. |
| Decimal.NatToStringInjective | src/Portable.Xaml.Roslyn/RoslynWriter.cs:126 | Distinct counters render as distinct decimal strings. |
| Naming.GetNameAsWritten | src/Portable.Xaml.Roslyn/RoslynWriter.cs:113-127 | A named node keeps its name and leaves the counters alone. An unnamed node gets `"_" + TypeName + n`, where n is one more than the stored count (or 1), and n becomes the stored count. |
| Naming.AsWrittenDistinctPerType | src/Portable.Xaml.Roslyn/RoslynWriter.cs:118-126 | Nodes of one type name get distinct names. |
| Naming.AsWrittenNamesCollide | src/Portable.Xaml.Roslyn/RoslynWriter.cs:126 | Across type names the source's format collides. With count 11 stored for `A`, a fresh `A1` node is named `_A11`, which was already given out. |
| Naming.UniqueNameInjective | src/Portable.Xaml.Roslyn/RoslynWriter.cs:126 | In the corrected format `"_" + TypeName + "_" + n`, a name determines both its type name and its count. |
| Naming.GetName | src/Portable.Xaml.Roslyn/RoslynWriter.cs:113-127 | This is the memoised naming with the corrected format. It keeps the counter discipline of the source. |
| Naming.GetNameIsFresh | src/Portable.Xaml.Roslyn/RoslynWriter.cs:113-127 | A fresh name was never issued before. Afterwards the issued names are the old ones plus this one. A memoised name issues nothing. |
| CodeGen.NameTop | src/Portable.Xaml.Roslyn/RoslynWriter.cs:113-116 | With the corrected name format: naming the top node changes only its name, and only when it has none yet. Nodes below it, statements and the class are untouched. |
| CodeGen.CurrentObject | src/Portable.Xaml.Roslyn/RoslynWriter.cs:139-140 | The root object is `this`. Any other top object is its node's local name, assigned on first use (in the corrected name format). |
| CodeGen.WriteStartObject | src/Portable.Xaml.Roslyn/RoslynWriter.cs:182-188 | Pushes exactly one fresh, unnamed node with no member. Everything else is unchanged. |
| CodeGen.WriteStartMember | src/Portable.Xaml.Roslyn/RoslynWriter.cs:142-180 | Corrected (second finding): opens the member on the top node only, and installs its value action: the class action for `x:Class`, the name action for `x:Name`, an assignment for a regular member, and no action for any other directive. Statements, counters and the class are unchanged. With no node there is a null dereference. |
| CodeGen.WriteStartMemberAsWritten | src/Portable.Xaml.Roslyn/RoslynWriter.cs:142-180 | As written in the source: opens the member on the top node only, and a directive other than `x:Class`/`x:Name` keeps the previous member's action. Statements, counters and the class are unchanged. With no node there is a null dereference. |
| CodeGen.WriteValue | src/Portable.Xaml.Roslyn/RoslynWriter.cs:142-194 | With no node or no action, the value is ignored. A regular member appends `target.Member = literal` to the top node only, leaving the class and the node's type, member and identifier alone. Under `x:Class` the value's text declares the class afresh, dropping any earlier declaration and its fields. Under `x:Name` the text becomes the node's identifier and a field of the class; a type with a name alias also gets `target.Alias = literal`. A null value under `x:Class`/`x:Name` is a null dereference. The global statements are never touched. |
| CodeGen.WriteEndObject | src/Portable.Xaml.Roslyn/RoslynWriter.cs:54-87 | Fails exactly on an empty stack (the model declares locals in the corrected name format). |
| CodeGen.WriteEndObjectShape | src/Portable.Xaml.Roslyn/RoslynWriter.cs:56-86 | With the corrected name format: pops exactly one node, and below it only the parent can change, by getting a name. The statements grow in this order: (1) a local declaration, exactly when a parent remains, carrying the node's name if it had one; (2) the node's statements; (3) an assignment of that local to the parent's member, exactly when that member exists and is not a collection; the member is accessed on `this` for the root and on the parent's local otherwise. |
| LocalNames.WriteEndObjectKeepsWf | src/Portable.Xaml.Roslyn/RoslynWriter.cs:56-86 | With the corrected name format, closing an object keeps the naming invariant: declared locals and names of open nodes are distinct, and each was issued by the counters. |
| LocalNames.RunKeepsWf | src/Portable.Xaml.Roslyn/RoslynWriter.cs:54-194 | With the corrected name format and directive actions, every event sequence keeps the naming invariant. |
| LocalNames.GeneratedLocalsDistinct | src/Portable.Xaml.Roslyn/RoslynWriter.cs:67 | With the corrected name format and directive actions, no event sequence from a fresh writer declares the same local name twice. The source's own format breaks this (first finding). |
| LocalNames.ParentLocalUsedBeforeDeclaration | src/Portable.Xaml.Roslyn/RoslynWriter.cs:59-84 | For nested objects `R > P > C` with regular, non-collection members, the statements are exactly: declare `C`'s local, assign it to `P`'s local, declare `P`'s local, assign that to `this`. `P`'s local is used before it is declared. |
| LocalNames.DirectiveValueReachesPreviousMemberAsWritten | src/Portable.Xaml.Roslyn/RoslynWriter.cs:171-179 | As written, the sequence "open a member M, open another directive, write a value" emits an assignment of that value to M. |
| LocalNames.OtherDirectiveValuesIgnored | src/Portable.Xaml.Roslyn/RoslynWriter.cs:171-179 | With the corrected actions, a value written under a directive other than `x:Class`/`x:Name` changes nothing. |

## Findings

| source | as written | input that shows it | evidently intended | confidence | as-written member | corrected member |
|---|---|---|---|---|---|---|
| src/Portable.Xaml.Roslyn/RoslynWriter.cs:126 | A local is named `"_" + Type.Name + count`, so the type name and the counter run together | eleven objects of type `A`, then one of type `A1`: both the eleventh `A` and the `A1` are named `_A11` | every generated local has its own name (the generated method declares them side by side) | medium, not executed | Naming.AsWrittenNamesCollide | Naming.GetNameIsFresh |
| src/Portable.Xaml.Roslyn/RoslynWriter.cs:171-179 | `WriteStartMember` resets the node's `SetValue` action only for `x:Class`, `x:Name` and non-directive members | start member `M`, start member `x:Key`, value `"k"`: this emits `this.M = "k"` | a value written under another directive is ignored | medium, not executed | LocalNames.DirectiveValueReachesPreviousMemberAsWritten | LocalNames.OtherDirectiveValuesIgnored |

The rest of the model uses the corrected definitions: `Naming.GetName` and
`CodeGen.SetterFor`.

## Left out

- Roslyn's `SyntaxGenerator`, `Formatter`, `AdhocWorkspace` and both `ToCode` methods are left out: they are a foreign library that produces formatted text. Generated syntax is the abstract `Expr`/`Stmt`/`ClassDecl` datatypes.
- The `On*` overrides of `XamlRoslynWriterInternal` are left out. Most only throw `NotImplementedException`. `OnWriteStartObject` records the top state as `root_state` when it is the only one, and always marks it `IsXamlWriterCreated`. `OnWriteStartMember` records the top state as `root_state` when at most one state lies below it. Only the left-out `ToCode` reads `root_state`.
- `XamlWriterInternalBase`, which dispatches events to the internal writer and owns `object_states`, is not part of this model, and neither is the `_intl.WriteStartObject` call. The internal writer's operations take the state, or the stack, as a parameter.
- `XamlSchemaContext`, `XamlType`/`XamlMember` reflection and the invokers are not shown. They are parameters: the `Invoker` record and descriptor fields. The service provider behind `HasPositionalParameters` becomes a boolean field of the type.
- Exceptions raised inside `CreateInstance` and `ToMutable` propagate unchanged in the source. The model treats these calls as total, because the writer neither catches nor wraps them.
- The source compares members with `ReferenceEquals` at line 356 and with `XamlMember`'s `==`/`!=` elsewhere; that operator's definition is not part of this model. The model compares member descriptors by datatype equality throughout.
- `RoslynWriter.WriteEndMember`, `WriteGetObject` and `WriteNamespace` have empty bodies and are not modelled. Note that `WriteEndMember` does not clear the node's open member.
- `Syntax.AddMembers` on a class that has not been declared yet keeps the class absent in the model. Roslyn's behaviour on a null declaration is not modelled.
- `Syntax.LiteralExpression` on a value of no literal type throws in Roslyn. This is not modelled, and every value becomes a literal.
- `ToString()` of an object that is not a string is the parameter `show`.
- Naming.GetNameAsWritten: does not model the 32-bit wrap-around of the `int` counter, which would take 2^31 objects of one type.
- ObjectWriter.InitializeObjectIfRequired: its own contract does not state the argument-construction path. That path is stated by `ObjectWriter.ConstructWithArguments` and `ObjectWriter.ArgumentConstructionAssignsRemainder`.
- LocalNames.GeneratedLocalsDistinct: holds for the writer with the corrected name format and directive actions only. With the source's format, local names can repeat (first finding), and the writer-level lemmas `LocalNames.WriteEndObjectKeepsWf` and `LocalNames.RunKeepsWf` are not claimed for it.
- The benchmark project and the JSON writer tests are out of scope. They hold no logic of this core.
