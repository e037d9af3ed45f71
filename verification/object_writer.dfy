/**
 * The object-writer core of the code-generating XAML writer: the
 * deferred-construction policy (`InitializeObjectIfRequired`) and the
 * member-assignment guard (`SetValue`), over an explicit stack of object states.
 */
module ObjectWriter {
  import opened Wrappers
  import opened XamlModel
  import Sequences

  /*** Member assignment ***/

  /** Calls the member's setter on `target`; an exception from the setter is rethrown wrapped, naming the member. */
  function InvokeSetter(inv: Invoker, m: Member, target: Value, v: Value): (r: Result<Assignment, XamlError>)
    ensures r.Ok? <==> inv.setValue(m, target, v).None?
    ensures r.Ok? ==> r.value == Assignment(m, target, v)
    ensures r.Err? ==> r.error == MemberAssignmentFailed(m, inv.setValue(m, target, v).value)
  {
    match inv.setValue(m, target, v)
    case None => Ok(Assignment(m, target, v))
    case Some(message) => Err(MemberAssignmentFailed(m, message))
  }

  /**
   * The guard under which a regular member is assigned: the object exists, the
   * open member has not received its value yet, and the object was not supplied
   * by its parent while the open member is a collection.
   */
  predicate AssignmentPermitted(s: ObjectState)
  {
    && s.isInstantiated
    && s.currentMemberState.Some?
    && !s.currentMemberState.value.isAlreadySet
    && (s.isValueProvidedByParent ==> s.currentMember.Some? && !s.currentMember.value.typeIsCollection)
  }

  /** Evaluating the guard dereferences a missing member state or a missing current member. */
  predicate GuardFaults(s: ObjectState)
  {
    && s.isInstantiated
    && (|| s.currentMemberState.None?
        || (!s.currentMemberState.value.isAlreadySet && s.isValueProvidedByParent && s.currentMember.None?))
  }

  /**
   * Commits `v` to member `m` of the top object: the factory-method directive
   * records its string, other directives are ignored, and a regular member is
   * assigned only when `AssignmentPermitted` holds.
   */
  function SetValue(inv: Invoker, s: ObjectState, m: Member, v: Value): (r: Outcome)
    // the factory-method directive only records the method name (a string or null)
    ensures m == FactoryMethodDirective ==> r.effects == [] && r.state.(factoryMethod := s.factoryMethod) == s
    ensures m == FactoryMethodDirective && v.Text? ==> r == Done(s.(factoryMethod := Some(v.s)), [])
    ensures m == FactoryMethodDirective && v.Null? ==> r == Done(s.(factoryMethod := None), [])
    ensures m == FactoryMethodDirective && v.Instance? ==> r == Failed(s, [], InvalidCast)
    // every other member leaves the state as it is; other directives do nothing at all
    ensures m != FactoryMethodDirective ==> r.state == s
    ensures m != FactoryMethodDirective && m.isDirective ==> r == Done(s, [])
    // a regular member is assigned exactly when the guard holds and the setter returns
    ensures r.effects != [] <==> !m.isDirective && AssignmentPermitted(s) && inv.setValue(m, s.value, v).None?
    ensures r.effects != [] ==> r.effects == [Assignment(m, s.value, v)] && r.error == None
    ensures !m.isDirective && AssignmentPermitted(s) && inv.setValue(m, s.value, v).Some? ==>
              r.error == Some(MemberAssignmentFailed(m, inv.setValue(m, s.value, v).value))
    ensures !m.isDirective && !AssignmentPermitted(s) ==>
              r.effects == [] && (r.error.Some? <==> GuardFaults(s)) && (r.error.Some? ==> r.error == Some(NullReference))
  {
    if m == FactoryMethodDirective then
      match v
      case Null => Done(s.(factoryMethod := None), [])
      case Text(name) => Done(s.(factoryMethod := Some(name)), [])
      case Instance(_) => Failed(s, [], InvalidCast)
    else if m.isDirective then Done(s, [])
    else if !s.isInstantiated then Done(s, [])
    else if s.currentMemberState.None? then Failed(s, [], NullReference)
    else if s.currentMemberState.value.isAlreadySet then Done(s, [])
    else if s.isValueProvidedByParent && s.currentMember.None? then Failed(s, [], NullReference)
    else if s.isValueProvidedByParent && s.currentMember.value.typeIsCollection then Done(s, [])
    else
      match InvokeSetter(inv, m, s.value, v)
      case Ok(a) => Done(s, [a])
      case Err(e) => Failed(s, [], e)
  }

  /*** Replaying written properties after construction ***/

  /** A written property that the replay hands to the setter. */
  predicate Settable(p: Property)
  {
    !p.member.isReadOnly && !p.member.isDirective
  }

  /** A read-only member flagged as a constructor argument. */
  predicate ReadOnlyConstructorArgument(p: Property)
  {
    p.member.isReadOnly && p.member.isConstructorArgument
  }

  /** Reference definition: one setter call per property, in the given order, all on `target`. */
  function AssignAll(target: Value, props: seq<Property>): (r: seq<Assignment>)
    ensures |r| == |props|
    ensures forall i :: 0 <= i < |r| ==> r[i] == Assignment(props[i].member, target, props[i].value)
  {
    seq(|props|, i requires 0 <= i < |props| => Assignment(props[i].member, target, props[i].value))
  }

  /**
   * Visits `props` in order: a read-only constructor argument fails, a writable
   * member goes through `SetValue`, any other read-only member is skipped.
   */
  function Replay(inv: Invoker, s: ObjectState, props: seq<Property>): (r: Outcome)
    ensures r.state.(factoryMethod := s.factoryMethod) == s
    ensures forall i :: 0 <= i < |r.effects| ==> r.effects[i].target == s.value
    ensures forall i :: 0 <= i < |r.effects| ==>
              Property(r.effects[i].member, r.effects[i].value) in props
              && Settable(Property(r.effects[i].member, r.effects[i].value))
    decreases |props|
  {
    if props == [] then Done(s, [])
    else
      var p := props[0];
      if ReadOnlyConstructorArgument(p) then Failed(s, [], ReadOnlyConstructorMember(p.member))
      else if p.member.isReadOnly then Replay(inv, s, props[1..])
      else
        var o := SetValue(inv, s, p.member, p.value);
        if o.error.Some? then o
        else
          var rest := Replay(inv, o.state, props[1..]);
          rest.(effects := o.effects + rest.effects)
  }

  /** The replay cannot fail on these properties: no read-only constructor argument, no failing setter, no cast error. */
  ghost predicate ReplaysCleanly(inv: Invoker, target: Value, props: seq<Property>)
  {
    forall p :: p in props ==>
      && !ReadOnlyConstructorArgument(p)
      && (Settable(p) ==> inv.setValue(p.member, target, p.value).None?)
      && (p.member == FactoryMethodDirective ==> !p.value.Instance?)
  }

  /** `AssignAll` of a non-empty list starts with the first property's assignment. */
  lemma AssignAllCons(target: Value, p: Property, props: seq<Property>)
    ensures AssignAll(target, [p] + props) == [Assignment(p.member, target, p.value)] + AssignAll(target, props)
  {
  }

  /** With the guard open, the replay assigns exactly the settable properties, in written order. */
  lemma {:induction false} ReplayAssignsInWrittenOrder(inv: Invoker, s: ObjectState, props: seq<Property>)
    requires AssignmentPermitted(s)
    requires ReplaysCleanly(inv, s.value, props)
    ensures Replay(inv, s, props).error == None
    ensures Replay(inv, s, props).effects == AssignAll(s.value, Sequences.Filter(props, Settable))
    decreases |props|
  {
    if props != [] {
      var p := props[0];
      assert p in props;
      assert ReplaysCleanly(inv, s.value, props[1..]) by {
        forall q | q in props[1..] ensures q in props { }
      }
      if p.member.isReadOnly {
        ReplayAssignsInWrittenOrder(inv, s, props[1..]);
        assert Sequences.Filter(props, Settable) == Sequences.Filter(props[1..], Settable);
      } else {
        var o := SetValue(inv, s, p.member, p.value);
        assert o.state.(factoryMethod := s.factoryMethod) == s;
        assert o.error == None;
        var rest := Replay(inv, o.state, props[1..]);
        assert Replay(inv, s, props) == rest.(effects := o.effects + rest.effects);
        ReplayAssignsInWrittenOrder(inv, o.state, props[1..]);
        if p.member.isDirective {
          assert o.effects == [];
          assert Sequences.Filter(props, Settable) == Sequences.Filter(props[1..], Settable);
        } else {
          assert o.effects == [Assignment(p.member, s.value, p.value)];
          assert Sequences.Filter(props, Settable) == [p] + Sequences.Filter(props[1..], Settable);
          AssignAllCons(s.value, p, Sequences.Filter(props[1..], Settable));
        }
      }
    }
  }

  /**
   * A read-only constructor argument stops the replay at its position: everything
   * settable before it has been assigned, and the error names its member.
   */
  lemma {:induction false} ReplayStopsAtReadOnlyConstructorArgument(inv: Invoker, s: ObjectState, props: seq<Property>, i: nat)
    requires AssignmentPermitted(s)
    requires i < |props| && ReadOnlyConstructorArgument(props[i])
    requires ReplaysCleanly(inv, s.value, props[..i])
    ensures Replay(inv, s, props).error == Some(ReadOnlyConstructorMember(props[i].member))
    ensures Replay(inv, s, props).effects == AssignAll(s.value, Sequences.Filter(props[..i], Settable))
    decreases i
  {
    var p := props[0];
    if i == 0 {
      assert props[..0] == [];
    } else {
      var prefix := props[1..][..i - 1];
      assert props[..i] == [p] + prefix;
      assert p in props[..i];
      assert ReplaysCleanly(inv, s.value, prefix) by {
        forall q | q in prefix ensures q in props[..i] { }
      }
      if p.member.isReadOnly {
        ReplayStopsAtReadOnlyConstructorArgument(inv, s, props[1..], i - 1);
        assert Sequences.Filter(props[..i], Settable) == Sequences.Filter(prefix, Settable);
      } else {
        var o := SetValue(inv, s, p.member, p.value);
        assert o.state.(factoryMethod := s.factoryMethod) == s;
        assert o.error == None;
        var rest := Replay(inv, o.state, props[1..]);
        assert Replay(inv, s, props) == rest.(effects := o.effects + rest.effects);
        ReplayStopsAtReadOnlyConstructorArgument(inv, o.state, props[1..], i - 1);
        if p.member.isDirective {
          assert o.effects == [];
          assert Sequences.Filter(props[..i], Settable) == Sequences.Filter(prefix, Settable);
        } else {
          assert o.effects == [Assignment(p.member, s.value, p.value)];
          assert Sequences.Filter(props[..i], Settable) == [p] + Sequences.Filter(prefix, Settable);
          AssignAllCons(s.value, p, Sequences.Filter(prefix, Settable));
        }
      }
    }
  }

  /**
   * The replay consults the member that is open on the object, not the member
   * being replayed: when the open member already holds its value, every
   * replayed property is dropped without a setter call.
   */
  lemma {:induction false} ReplayDropsAllWhenOpenMemberIsSet(inv: Invoker, s: ObjectState, props: seq<Property>)
    requires s.currentMemberState == Some(MemberState(true))
    ensures Replay(inv, s, props).effects == []
    ensures ReplaysCleanly(inv, s.value, props) ==> Replay(inv, s, props).error == None
    decreases |props|
  {
    if props != [] {
      assert props[0] in props;
      assert ReplaysCleanly(inv, s.value, props) ==> ReplaysCleanly(inv, s.value, props[1..]) by {
        forall q | q in props[1..] ensures q in props { }
      }
      if ReadOnlyConstructorArgument(props[0]) {
        // the replay stops here, before any setter call
      } else if !props[0].member.isReadOnly {
        var o := SetValue(inv, s, props[0].member, props[0].value);
        ReplayDropsAllWhenOpenMemberIsSet(inv, o.state, props[1..]);
      } else {
        ReplayDropsAllWhenOpenMemberIsSet(inv, s, props[1..]);
      }
    }
  }

  /*** Deferred construction ***/

  /**
   * Construction is put off when the type needs constructor arguments and the
   * caller does not force completion, or when the caller waits for parameters
   * and the type has positional parameters.
   */
  predicate Defers(t: XType, waitForParameters: bool, required: bool)
  {
    (t.constructionRequiresArguments && !required) || (waitForParameters && t.hasPositionalParameters)
  }

  /** The written properties whose member is flagged as a constructor argument, in written order. */
  function ConstructorArguments(written: seq<Property>): (r: seq<Property>)
  {
    Sequences.Filter(written, (p: Property) => p.member.isConstructorArgument)
  }

  /** The written properties whose member matches no consumed argument, in written order. */
  function Unconsumed(written: seq<Property>, args: seq<Property>): (r: seq<Property>)
  {
    Sequences.Filter(written, (p: Property) => forall a :: a in args ==> a.member != p.member)
  }

  /** The argument values, in the order of the sorted arguments. */
  function ValuesOf(args: seq<Property>): (r: seq<Value>)
    ensures |r| == |args|
    ensures forall i :: 0 <= i < |r| ==> r[i] == args[i].value
  {
    seq(|args|, i requires 0 <= i < |args| => args[i].value)
  }

  /** The sorter sees exactly the constructor-argument properties, in written order. */
  lemma ConstructorArgumentsSelection(written: seq<Property>)
    ensures forall p :: p in ConstructorArguments(written) <==> p in written && p.member.isConstructorArgument
    ensures Sequences.IsSubsequence(ConstructorArguments(written), written)
    ensures forall p :: multiset(ConstructorArguments(written))[p] ==
              if p.member.isConstructorArgument then multiset(written)[p] else 0
  {
    Sequences.FilterIsSubsequence(written, (p: Property) => p.member.isConstructorArgument);
    Sequences.FilterCount(written, (p: Property) => p.member.isConstructorArgument);
  }

  /** The replayed properties are exactly the written ones no argument consumed, in written order. */
  lemma UnconsumedSelection(written: seq<Property>, args: seq<Property>)
    ensures forall p :: p in Unconsumed(written, args) <==>
              p in written && forall a :: a in args ==> a.member != p.member
    ensures Sequences.IsSubsequence(Unconsumed(written, args), written)
    ensures forall p :: multiset(Unconsumed(written, args))[p] ==
              if forall a :: a in args ==> a.member != p.member then multiset(written)[p] else 0
  {
    Sequences.FilterIsSubsequence(written, (p: Property) => forall a :: a in args ==> a.member != p.member);
    Sequences.FilterCount(written, (p: Property) => forall a :: a in args ==> a.member != p.member);
  }

  /**
   * Construction from constructor arguments: sort the constructor-argument
   * properties, construct from their values in that order, then replay the rest.
   */
  function ConstructWithArguments(inv: Invoker, s: ObjectState): (r: Outcome)
    ensures inv.sortedConstructorArguments(s.xtype, ConstructorArguments(s.writtenProperties)).None? ==>
              r == Failed(s, [], ConstructorNotFound(s.xtype))
    ensures inv.sortedConstructorArguments(s.xtype, ConstructorArguments(s.writtenProperties)).Some? ==>
              var args := inv.sortedConstructorArguments(s.xtype, ConstructorArguments(s.writtenProperties)).value;
              && r.state.isInstantiated
              && r.state.value == inv.createInstance(s.xtype, Some(ValuesOf(args)))
              && forall i :: 0 <= i < |r.effects| ==>
                   && r.effects[i].target == r.state.value
                   && Property(r.effects[i].member, r.effects[i].value) in Unconsumed(s.writtenProperties, args)
  {
    var ctorProps := ConstructorArguments(s.writtenProperties);
    match inv.sortedConstructorArguments(s.xtype, ctorProps)
    case None => Failed(s, [], ConstructorNotFound(s.xtype))
    case Some(args) =>
      var obj := inv.createInstance(s.xtype, Some(ValuesOf(args)));
      Replay(inv, s.(value := obj, isInstantiated := true), Unconsumed(s.writtenProperties, args))
  }

  /**
   * Instantiates the object of state `s` now, or leaves it pending. Only the
   * instantiation fields (`value`, `isInstantiated`) and, through a replayed
   * factory-method directive, `factoryMethod` can change.
   */
  function InitializeObjectIfRequired(inv: Invoker, s: ObjectState, waitForParameters: bool, required: bool): (r: Outcome)
    // an instantiated object is left alone: instantiation never reverts and the value is set once
    ensures s.isInstantiated ==> r == Done(s, [])
    ensures r.state.(value := s.value, isInstantiated := s.isInstantiated, factoryMethod := s.factoryMethod) == s
    // deferral
    ensures !s.isInstantiated && Defers(s.xtype, waitForParameters, required) ==>
              if !s.xtype.isImmutable || inv.toMutable(s.xtype, Null) == Null then r == Done(s, [])
              else r == Done(s.(value := inv.toMutable(s.xtype, Null), isInstantiated := true), [])
    // construction
    ensures !s.isInstantiated && !Defers(s.xtype, waitForParameters, required) && s.factoryMethod.Some? ==>
              r == Failed(s, [], NotImplemented)
    ensures !s.isInstantiated && !Defers(s.xtype, waitForParameters, required) && s.factoryMethod.None?
            && !s.xtype.constructionRequiresArguments ==>
              r.error == None && r.effects == [] && r.state.isInstantiated
              && r.state.value == (var created := inv.createInstance(s.xtype, None);
                                   if s.xtype.isImmutable then inv.toMutable(s.xtype, created) else created)
  {
    if s.isInstantiated then Done(s, [])
    else if Defers(s.xtype, waitForParameters, required) then
      if !s.xtype.isImmutable then Done(s, [])
      else
        var standIn := inv.toMutable(s.xtype, Null);
        if standIn == Null then Done(s, [])
        else Done(s.(value := standIn, isInstantiated := true), [])
    else if s.factoryMethod.Some? then Failed(s, [], NotImplemented)
    else if s.xtype.constructionRequiresArguments then ConstructWithArguments(inv, s)
    else
      var created := inv.createInstance(s.xtype, None);
      var obj := if s.xtype.isImmutable then inv.toMutable(s.xtype, created) else created;
      Done(s.(value := obj, isInstantiated := true), [])
  }

  /** The object stays pending exactly when it is deferred without a stand-in or construction fails before creating it. */
  lemma PendingIff(inv: Invoker, s: ObjectState, waitForParameters: bool, required: bool)
    requires !s.isInstantiated
    ensures var r := InitializeObjectIfRequired(inv, s, waitForParameters, required);
            !r.state.isInstantiated <==>
              if Defers(s.xtype, waitForParameters, required) then
                !s.xtype.isImmutable || inv.toMutable(s.xtype, Null) == Null
              else
                || s.factoryMethod.Some?
                || (s.xtype.constructionRequiresArguments
                    && inv.sortedConstructorArguments(s.xtype, ConstructorArguments(s.writtenProperties)).None?)
    ensures var r := InitializeObjectIfRequired(inv, s, waitForParameters, required);
            !r.state.isInstantiated ==> r.state == s && r.effects == []
  {
  }

  /** Forcing completion (as end-of-object does) never leaves the object silently pending. */
  lemma ForcedInitializationCompletes(inv: Invoker, s: ObjectState)
    ensures var r := InitializeObjectIfRequired(inv, s, false, true);
            r.state.isInstantiated || r.error.Some?
  {
  }

  /** A successful initialization is idempotent: running it again changes nothing. */
  lemma InitializeIdempotent(inv: Invoker, s: ObjectState, waitForParameters: bool, required: bool)
    requires InitializeObjectIfRequired(inv, s, waitForParameters, required).error == None
    ensures var r := InitializeObjectIfRequired(inv, s, waitForParameters, required);
            InitializeObjectIfRequired(inv, r.state, waitForParameters, required) == Done(r.state, [])
  {
  }

  /**
   * Argument construction with the guard open and a clean replay: the instance is
   * created from the sorter's values in the sorter's order, and then exactly the
   * settable unconsumed properties are assigned to it, in written order.
   */
  lemma ArgumentConstructionAssignsRemainder(inv: Invoker, s: ObjectState, waitForParameters: bool, required: bool)
    requires !s.isInstantiated && !Defers(s.xtype, waitForParameters, required)
    requires s.factoryMethod.None? && s.xtype.constructionRequiresArguments
    requires inv.sortedConstructorArguments(s.xtype, ConstructorArguments(s.writtenProperties)).Some?
    requires var args := inv.sortedConstructorArguments(s.xtype, ConstructorArguments(s.writtenProperties)).value;
             && AssignmentPermitted(s.(isInstantiated := true))
             && ReplaysCleanly(inv, inv.createInstance(s.xtype, Some(ValuesOf(args))), Unconsumed(s.writtenProperties, args))
    ensures var args := inv.sortedConstructorArguments(s.xtype, ConstructorArguments(s.writtenProperties)).value;
            var obj := inv.createInstance(s.xtype, Some(ValuesOf(args)));
            var r := InitializeObjectIfRequired(inv, s, waitForParameters, required);
            && r.error == None
            && r.state.value == obj
            && r.effects == AssignAll(obj, Sequences.Filter(Unconsumed(s.writtenProperties, args), Settable))
  {
    var args := inv.sortedConstructorArguments(s.xtype, ConstructorArguments(s.writtenProperties)).value;
    var obj := inv.createInstance(s.xtype, Some(ValuesOf(args)));
    ReplayAssignsInWrittenOrder(inv, s.(value := obj, isInstantiated := true), Unconsumed(s.writtenProperties, args));
  }

  /*** The state stack ***/

  /** The writer's stack of object states after an operation on its top entry. */
  datatype StackOutcome = StackOutcome(stack: seq<ObjectState>, effects: seq<Assignment>, error: Option<XamlError>)

  /** Runs `InitializeObjectIfRequired` on the top of the stack (`Peek`); the entries below it are untouched. */
  function InitializeTop(inv: Invoker, stack: seq<ObjectState>, waitForParameters: bool, required: bool): (r: StackOutcome)
    ensures |stack| == 0 ==> r == StackOutcome(stack, [], Some(EmptyStack))
    ensures |stack| > 0 ==>
              var o := InitializeObjectIfRequired(inv, stack[|stack| - 1], waitForParameters, required);
              && |r.stack| == |stack|
              && r.stack[..|stack| - 1] == stack[..|stack| - 1]
              && r.stack[|stack| - 1] == o.state
              && r.effects == o.effects && r.error == o.error
  {
    if |stack| == 0 then StackOutcome(stack, [], Some(EmptyStack))
    else
      var o := InitializeObjectIfRequired(inv, stack[|stack| - 1], waitForParameters, required);
      StackOutcome(stack[..|stack| - 1] + [o.state], o.effects, o.error)
  }

  /**
   * Runs `SetValue` on the top of the stack (`Peek`); the entries below it are
   * untouched. A directive other than the factory method returns before the
   * stack is consulted, so it succeeds even on an empty stack.
   */
  function SetValueOnTop(inv: Invoker, stack: seq<ObjectState>, m: Member, v: Value): (r: StackOutcome)
    ensures m != FactoryMethodDirective && m.isDirective ==> r == StackOutcome(stack, [], None)
    ensures |stack| == 0 ==>
              r.stack == stack && r.effects == []
              && (r.error == Some(EmptyStack) <==> m == FactoryMethodDirective || !m.isDirective)
    ensures |stack| > 0 ==>
              var o := SetValue(inv, stack[|stack| - 1], m, v);
              && |r.stack| == |stack|
              && r.stack[..|stack| - 1] == stack[..|stack| - 1]
              && r.stack[|stack| - 1] == o.state
              && r.effects == o.effects && r.error == o.error
  {
    if m != FactoryMethodDirective && m.isDirective then StackOutcome(stack, [], None)
    else if |stack| == 0 then StackOutcome(stack, [], Some(EmptyStack))
    else
      var o := SetValue(inv, stack[|stack| - 1], m, v);
      StackOutcome(stack[..|stack| - 1] + [o.state], o.effects, o.error)
  }
}
