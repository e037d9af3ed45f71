/**
 * The entities the object writer works on: values, member and type
 * descriptors, the per-object state, and the external reflection services
 * (invokers) the writer calls but does not implement.
 */
module XamlModel {
  import opened Wrappers

  /** A runtime value handed to the writer: a null reference, a string, or some other object. */
  datatype Value = Null | Text(s: string) | Instance(handle: nat)

  /** The namespace of the XAML language directives. */
  const XamlNamespace: string := "http://schemas.microsoft.com/winfx/2006/xaml"

  /**
   * A member descriptor (`XamlMember`). `typeIsCollection` is `Member.Type.IsCollection`.
   * Member identity (the source compares references) is equality of descriptors.
   */
  datatype Member = Member(
    namespace: string,
    name: string,
    isDirective: bool,
    isReadOnly: bool,
    isConstructorArgument: bool,
    typeIsCollection: bool)

  /** `XamlLanguage.FactoryMethod`, `XamlLanguage.Class` and `XamlLanguage.Name`. */
  const FactoryMethodDirective: Member := Member(XamlNamespace, "FactoryMethod", true, false, false, false)
  const ClassDirective: Member := Member(XamlNamespace, "Class", true, false, false, false)
  const NameDirective: Member := Member(XamlNamespace, "Name", true, false, false, false)

  /**
   * A type descriptor (`XamlType`). `hasPositionalParameters` is the answer of
   * `HasPositionalParameters` for the writer's service provider; `nameAlias` is
   * the name of the member aliased to the `Name` directive, if any.
   */
  datatype XType = XType(
    name: string,
    fullName: string,
    constructionRequiresArguments: bool,
    isImmutable: bool,
    hasPositionalParameters: bool,
    nameAlias: Option<string>)

  /** One (member, value) pair recorded when a member was completed. */
  datatype Property = Property(member: Member, value: Value)

  /** Whether a value has already been committed to the open member. */
  datatype MemberState = MemberState(isAlreadySet: bool)

  /**
   * The state of one object under construction. `value` is `Null` until the
   * object is instantiated (and may stay `Null` if an invoker returned null).
   */
  datatype ObjectState = ObjectState(
    xtype: XType,
    value: Value,
    isInstantiated: bool,
    writtenProperties: seq<Property>,
    currentMember: Option<Member>,
    currentMemberState: Option<MemberState>,
    factoryMethod: Option<string>,
    isValueProvidedByParent: bool)

  /**
   * The reflection services of the schema. Each is a black box to the writer:
   * - `createInstance(t, args)`: `t.Invoker.CreateInstance(args)`, `None` standing for a null array;
   * - `toMutable(t, v)`: `t.Invoker.ToMutable(v)`, which may return null;
   * - `sortedConstructorArguments(t, props)`: `t.GetSortedConstructorArguments(props)`,
   *   `None` when no constructor matches;
   * - `setValue(m, target, v)`: `m.Invoker.SetValue(target, v)`, `Some(message)` when it throws.
   */
  datatype Invoker = Invoker(
    createInstance: (XType, Option<seq<Value>>) -> Value,
    toMutable: (XType, Value) -> Value,
    sortedConstructorArguments: (XType, seq<Property>) -> Option<seq<Property>>,
    setValue: (Member, Value, Value) -> Option<string>)

  /** The failures the writer raises. */
  datatype XamlError =
    | NotImplemented                        // the factory-method construction path
    | ConstructorNotFound(xtype: XType)     // "Could not find constructor for {type} ..."
    | ReadOnlyConstructorMember(member: Member)
    | MemberAssignmentFailed(member: Member, inner: string)
    | InvalidCast                           // `(string)value` on a value that is not a string
    | NullReference                         // dereference of a null field
    | EmptyStack                            // `Peek`/`Pop` on an empty stack

  /** One call of a member setter that returned normally. */
  datatype Assignment = Assignment(member: Member, target: Value, value: Value)

  /**
   * What a writer operation leaves behind: the state of the top object, the
   * setter calls it made (in order), and the exception it raised, if any. On an
   * exception, `state` and `effects` are those at the point of failure: the
   * writer does not roll back.
   */
  datatype Outcome = Outcome(state: ObjectState, effects: seq<Assignment>, error: Option<XamlError>)

  function Done(s: ObjectState, effects: seq<Assignment>): (r: Outcome)
  {
    Outcome(s, effects, None)
  }

  function Failed(s: ObjectState, effects: seq<Assignment>, e: XamlError): (r: Outcome)
  {
    Outcome(s, effects, Some(e))
  }
}
