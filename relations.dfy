/**
 * What `ParsedClassMonoCecil` computes for one type definition, stated as
 * functions of the metadata, and the properties of those functions: how the
 * methods are split, which interfaces survive, and where each entry of the
 * using, aggregation, composition and inheritance lists comes from.
 *
 * The source appends `X.GetType()` to every relationship list, which is the
 * runtime class of the Cecil object X and not the program type X refers to.
 * The functions below record the referenced `TypeRef` instead; the section
 * "As written" at the end models what `GetType()` gives and shows that it
 * collapses the lists.
 */
module Relations {
  import opened Metadata
  import opened Seqs

  // ---------------------------------------------------------------------------
  // Constructors and ordinary methods

  predicate IsConstructor(m: MethodDef) { m.isConstructor }

  predicate IsOrdinary(m: MethodDef) { !m.isConstructor }

  function Constructors(ms: seq<MethodDef>): seq<MethodDef> { Filter(ms, IsConstructor) }

  function OrdinaryMethods(ms: seq<MethodDef>): seq<MethodDef> { Filter(ms, IsOrdinary) }

  /** Every method lands in exactly one of the two lists, in declaration order. */
  lemma MethodPartition(ms: seq<MethodDef>)
    ensures multiset(Constructors(ms)) + multiset(OrdinaryMethods(ms)) == multiset(ms)
    ensures forall m :: m in Constructors(ms) <==> m in ms && m.isConstructor
    ensures forall m :: m in OrdinaryMethods(ms) <==> m in ms && !m.isConstructor
    ensures Subsequence(Constructors(ms), ms) && Subsequence(OrdinaryMethods(ms), ms)
  {
    FilterSplits(ms, IsConstructor, IsOrdinary);
    forall m: MethodDef
      ensures (m in Constructors(ms) <==> m in ms && m.isConstructor)
      ensures (m in OrdinaryMethods(ms) <==> m in ms && !m.isConstructor)
    {
      FilterMembership(ms, IsConstructor, m);
      FilterMembership(ms, IsOrdinary, m);
    }
    FilterIsSubsequence(ms, IsConstructor);
    FilterIsSubsequence(ms, IsOrdinary);
  }

  /** Distinct definitions stay distinct in both lists. */
  lemma PartitionKeepsDistinct(ms: seq<MethodDef>)
    requires NoDuplicates(ms)
    ensures NoDuplicates(Constructors(ms)) && NoDuplicates(OrdinaryMethods(ms))
  {
    FilterKeepsNoDuplicates(ms, IsConstructor);
    FilterKeepsNoDuplicates(ms, IsOrdinary);
  }

  // ---------------------------------------------------------------------------
  // Parent class and interfaces

  /** `type.BaseType?.Resolve()`: no parent when there is no base type or it does not resolve. */
  function ParentOf(resolve: Resolver, t: TypeDef): Option<TypeDef>
  {
    if t.baseType.Some? && t.baseType.value in resolve then Some(resolve[t.baseType.value]) else None
  }

  /** Full names of the interfaces in `ifaces`. */
  function InterfaceNames(ifaces: seq<InterfaceImpl>): set<string>
  {
    set x | x in ifaces :: x.interfaceType.fullName
  }

  function NotRemovable(removable: set<string>): InterfaceImpl -> bool
  {
    (i: InterfaceImpl) => i.interfaceType.fullName !in removable
  }

  /** The interfaces whose full name is not in `removable`, in order. */
  function NonRedundant(ifaces: seq<InterfaceImpl>, removable: set<string>): seq<InterfaceImpl>
  {
    Filter(ifaces, NotRemovable(removable))
  }

  /**
   * The interface list before redundancy filtering: empty when the type has
   * none, the type's own list when there is no parent, and otherwise the
   * type's interfaces whose full name the parent does not list.  This is the
   * subtraction the source means to do; what its `Except` does instead is
   * `AsWrittenSubtractedInterfaces` below.
   */
  function SubtractedInterfaces(t: TypeDef, parent: Option<TypeDef>): seq<InterfaceImpl>
  {
    if |t.interfaces| == 0 then []
    else if parent.None? then t.interfaces
    else NonRedundant(t.interfaces, InterfaceNames(parent.value.interfaces))
  }

  lemma SubtractedInterfacesSpec(t: TypeDef, parent: Option<TypeDef>)
    ensures t.interfaces == [] ==> SubtractedInterfaces(t, parent) == []
    ensures parent.None? ==> SubtractedInterfaces(t, parent) == t.interfaces
    ensures parent.Some? ==>
      var r := SubtractedInterfaces(t, parent);
      && Subsequence(r, t.interfaces)
      && (NoDuplicates(t.interfaces) ==> NoDuplicates(r))
      && forall i :: i in r <==>
           i in t.interfaces && !exists j :: j in parent.value.interfaces && j.interfaceType.fullName == i.interfaceType.fullName
  {
    if parent.Some? && t.interfaces != [] {
      var r := SubtractedInterfaces(t, parent);
      var names := InterfaceNames(parent.value.interfaces);
      FilterIsSubsequence(t.interfaces, NotRemovable(names));
      if NoDuplicates(t.interfaces) {
        FilterKeepsNoDuplicates(t.interfaces, NotRemovable(names));
      }
      forall i
        ensures i in r <==>
          i in t.interfaces && !exists j :: j in parent.value.interfaces && j.interfaceType.fullName == i.interfaceType.fullName
      {
        FilterMembership(t.interfaces, NotRemovable(names), i);
      }
    }
  }

  /**
   * `type.Interfaces.Except(_parentClass.Interfaces)` as written: LINQ
   * compares the `InterfaceImplementation` objects, so only an object that
   * the parent's list holds is removed.
   */
  function AsWrittenSubtractedInterfaces(t: TypeDef, parent: Option<TypeDef>): seq<InterfaceImpl>
  {
    if |t.interfaces| == 0 then []
    else if parent.None? then t.interfaces
    else Except(t.interfaces, parent.value.interfaces)
  }

  /** No implementation object of `a` is one of `b`: each type owns its own. */
  predicate SeparateObjects(a: seq<InterfaceImpl>, b: seq<InterfaceImpl>)
  {
    forall i, j :: i in a && j in b ==> i.handle != j.handle
  }

  /**
   * Every `TypeDefinition` reads its own `InterfaceImplementation` objects, so
   * a parent never holds one of its child's: the `Except` as written removes
   * nothing from a duplicate-free list.
   */
  lemma AsWrittenSubtractionRemovesNothing(t: TypeDef, parent: Option<TypeDef>)
    requires NoDuplicates(t.interfaces)
    requires parent.Some? ==> SeparateObjects(t.interfaces, parent.value.interfaces)
    ensures AsWrittenSubtractedInterfaces(t, parent) == t.interfaces
  {
    if parent.Some? && |t.interfaces| > 0 {
      ExceptDisjoint(t.interfaces, parent.value.interfaces);
    }
  }

  predicate InterfacesResolve(resolve: Resolver, ifaces: seq<InterfaceImpl>)
  {
    forall k :: 0 <= k < |ifaces| ==> ifaces[k].interfaceType in resolve
  }

  /** Full names of the interfaces that the definition `d` itself declares. */
  function SuperInterfaceNames(d: TypeDef): set<string>
  {
    InterfaceNames(d.interfaces)
  }

  /** Interface `i` resolves and extends an interface whose full name is `name`. */
  predicate Extends(resolve: Resolver, i: InterfaceImpl, name: string)
  {
    i.interfaceType in resolve && name in SuperInterfaceNames(resolve[i.interfaceType])
  }

  /** `removableInterfaceNames`: the names extended by some interface of `ifaces`. */
  function ExtendedNames(resolve: Resolver, ifaces: seq<InterfaceImpl>): set<string>
    requires InterfacesResolve(resolve, ifaces)
  {
    if ifaces == [] then {}
    else
      ExtendedNames(resolve, ifaces[..|ifaces| - 1])
      + SuperInterfaceNames(resolve[ifaces[|ifaces| - 1].interfaceType])
  }

  lemma {:induction false} ExtendedNamesSpec(resolve: Resolver, ifaces: seq<InterfaceImpl>, name: string)
    requires InterfacesResolve(resolve, ifaces)
    ensures name in ExtendedNames(resolve, ifaces) <==> exists i :: i in ifaces && Extends(resolve, i, name)
    decreases |ifaces|
  {
    if ifaces != [] {
      var init, last := ifaces[..|ifaces| - 1], ifaces[|ifaces| - 1];
      assert forall k :: 0 <= k < |init| ==> init[k] == ifaces[k];
      ExtendedNamesSpec(resolve, init, name);
      assert ifaces == init + [last];
      if name in SuperInterfaceNames(resolve[last.interfaceType]) {
        assert Extends(resolve, last, name);
      }
      if exists i :: i in ifaces && Extends(resolve, i, name) {
        var i :| i in ifaces && Extends(resolve, i, name);
        assert i == last || i in init;
      }
    }
  }

  predicate FinalInterfacesResolvable(resolve: Resolver, t: TypeDef)
  {
    InterfacesResolve(resolve, SubtractedInterfaces(t, ParentOf(resolve, t)))
  }

  /** The type's interface list as the constructor leaves it in `_interfaces`. */
  function FinalInterfaces(resolve: Resolver, t: TypeDef): seq<InterfaceImpl>
    requires FinalInterfacesResolvable(resolve, t)
  {
    var pre := SubtractedInterfaces(t, ParentOf(resolve, t));
    NonRedundant(pre, ExtendedNames(resolve, pre))
  }

  /**
   * An interface is kept exactly when no interface of the pre-filter list
   * extends one with its full name; the kept ones keep their order.
   */
  lemma FinalInterfacesSpec(resolve: Resolver, t: TypeDef)
    requires FinalInterfacesResolvable(resolve, t)
    ensures
      var pre := SubtractedInterfaces(t, ParentOf(resolve, t));
      var r := FinalInterfaces(resolve, t);
      && (forall i :: i in r <==>
            i in pre && !exists j :: j in pre && Extends(resolve, j, i.interfaceType.fullName))
      && Subsequence(r, pre)
      && (t.interfaces == [] ==> r == [])
  {
    var pre := SubtractedInterfaces(t, ParentOf(resolve, t));
    var names := ExtendedNames(resolve, pre);
    forall i
      ensures i in FinalInterfaces(resolve, t) <==>
        i in pre && !exists j :: j in pre && Extends(resolve, j, i.interfaceType.fullName)
    {
      FilterMembership(pre, NotRemovable(names), i);
      ExtendedNamesSpec(resolve, pre, i.interfaceType.fullName);
    }
    FilterIsSubsequence(pre, NotRemovable(names));
  }

  // ---------------------------------------------------------------------------
  // Inheritance

  function InterfaceTypes(ifaces: seq<InterfaceImpl>): seq<TypeRef>
  {
    seq(|ifaces|, k requires 0 <= k < |ifaces| => ifaces[k].interfaceType)
  }

  /** The parent alone when a parent class resolved, otherwise the final interfaces. */
  function Inheritance(resolve: Resolver, t: TypeDef, ifaces: seq<InterfaceImpl>): seq<TypeRef>
  {
    if ParentOf(resolve, t).Some? then [t.baseType.value] else InterfaceTypes(ifaces)
  }

  // ---------------------------------------------------------------------------
  // Using, from the parameters of ordinary methods

  /**
   * A type the source means to count as a class that is not generic: the
   * reflection test `IsClass && !IsGenericType` holds for reference classes
   * only, while Cecil's `IsClass` also holds for structs and enums, so value
   * types are excluded explicitly, as the source itself does at the
   * `stfld` test.
   */
  predicate IsUsableClass(resolve: Resolver, r: TypeRef)
  {
    r in resolve && resolve[r].isClass && !r.isValueType && !r.isGenericInstance
  }

  function IsUsedParameter(resolve: Resolver, self: string): TypeRef -> bool
  {
    (p: TypeRef) => IsUsableClass(resolve, p) && p.fullName != self
  }

  /** One method's parameters that enter the using list: non-generic classes other than `self`. */
  function UsedParameters(resolve: Resolver, self: string, ps: seq<TypeRef>): seq<TypeRef>
  {
    Filter(ps, IsUsedParameter(resolve, self))
  }

  /** The using entries of the dictionary pass over methods `ms`; constructors are skipped. */
  function MethodUsing(resolve: Resolver, self: string, ms: seq<MethodDef>): seq<TypeRef>
  {
    if ms == [] then []
    else
      MethodUsing(resolve, self, ms[..|ms| - 1])
      + (if ms[|ms| - 1].isConstructor then [] else UsedParameters(resolve, self, ms[|ms| - 1].parameters))
  }

  lemma {:induction false} MethodUsingMembership(resolve: Resolver, self: string, ms: seq<MethodDef>, p: TypeRef)
    ensures p in MethodUsing(resolve, self, ms) <==>
      (exists m :: m in ms && !m.isConstructor && p in m.parameters)
      && IsUsableClass(resolve, p) && p.fullName != self
    decreases |ms|
  {
    if ms != [] {
      var init, last := ms[..|ms| - 1], ms[|ms| - 1];
      MethodUsingMembership(resolve, self, init, p);
      FilterMembership(last.parameters, IsUsedParameter(resolve, self), p);
      assert IsUsedParameter(resolve, self)(p) == (IsUsableClass(resolve, p) && p.fullName != self);
      assert ms == init + [last];
    }
  }

  /**
   * A using entry of the method pass is a parameter of an ordinary method of
   * the type that is a non-generic class other than the type itself; every
   * such parameter is entered.
   */
  lemma MethodUsingSources(resolve: Resolver, t: TypeDef, p: TypeRef)
    ensures p in MethodUsing(resolve, t.fullName, OrdinaryMethods(t.methods)) <==>
      (exists m :: m in t.methods && !m.isConstructor && p in m.parameters)
      && IsUsableClass(resolve, p) && p.fullName != t.fullName
  {
    MethodPartition(t.methods);
    MethodUsingMembership(resolve, t.fullName, OrdinaryMethods(t.methods), p);
  }

  // ---------------------------------------------------------------------------
  // Aggregation, from `newobj` in ordinary methods

  /** A method without a body contributes no instructions (`HasBody` is false). */
  function BodyOf(m: MethodDef): seq<Instruction>
  {
    if m.body.Some? then m.body.value else []
  }

  /** Declaring types of the `newobj` instructions of a body that are not generic instances. */
  function NewobjTargets(body: seq<Instruction>): seq<TypeRef>
  {
    if body == [] then []
    else
      NewobjTargets(body[..|body| - 1])
      + match body[|body| - 1]
        case Newobj(d) => if d.isGenericInstance then [] else [d]
        case _ => []
  }

  function Aggregation(ms: seq<MethodDef>): seq<TypeRef>
  {
    if ms == [] then [] else Aggregation(ms[..|ms| - 1]) + NewobjTargets(BodyOf(ms[|ms| - 1]))
  }

  /** Method `m` has a body in which it constructs a non-generic `d`. */
  predicate Constructs(m: MethodDef, d: TypeRef)
  {
    m.body.Some? && Newobj(d) in m.body.value && !d.isGenericInstance
  }

  lemma {:induction false} NewobjTargetsMembership(body: seq<Instruction>, d: TypeRef)
    ensures d in NewobjTargets(body) <==> Newobj(d) in body && !d.isGenericInstance
    decreases |body|
  {
    if body != [] {
      NewobjTargetsMembership(body[..|body| - 1], d);
      assert body == body[..|body| - 1] + [body[|body| - 1]];
    }
  }

  lemma {:induction false} AggregationMembership(ms: seq<MethodDef>, d: TypeRef)
    ensures d in Aggregation(ms) <==> exists m :: m in ms && Constructs(m, d)
    decreases |ms|
  {
    if ms != [] {
      var init, last := ms[..|ms| - 1], ms[|ms| - 1];
      AggregationMembership(init, d);
      NewobjTargetsMembership(BodyOf(last), d);
      assert ms == init + [last];
      if d in NewobjTargets(BodyOf(last)) {
        assert Constructs(last, d);
      }
      if exists m :: m in ms && Constructs(m, d) {
        var m :| m in ms && Constructs(m, d);
        assert m == last || m in init;
      }
    }
  }

  /**
   * An aggregation entry is a non-generic type constructed by `newobj` in the
   * body of an ordinary method; constructor bodies contribute nothing.
   */
  lemma AggregationSources(t: TypeDef, d: TypeRef)
    ensures d in Aggregation(OrdinaryMethods(t.methods)) <==>
      exists m :: m in t.methods && !m.isConstructor && Constructs(m, d)
  {
    MethodPartition(t.methods);
    AggregationMembership(OrdinaryMethods(t.methods), d);
  }

  // ---------------------------------------------------------------------------
  // Composition, from `stfld` in constructors, and using from constructor parameters

  /** A stored field type that counts: not a value type, resolves to a non-generic class. */
  predicate IsComposedFieldType(resolve: Resolver, f: TypeRef)
  {
    !f.isValueType && f in resolve && resolve[f].isClass && !resolve[f].isGenericInstance
  }

  function StoredFieldTypes(resolve: Resolver, body: seq<Instruction>): seq<TypeRef>
  {
    if body == [] then []
    else
      StoredFieldTypes(resolve, body[..|body| - 1])
      + match body[|body| - 1]
        case Stfld(f) => if IsComposedFieldType(resolve, f) then [f] else []
        case _ => []
  }

  /** `_compositionList` after the constructors `ctors` have been scanned, in order. */
  function Composition(resolve: Resolver, ctors: seq<MethodDef>): seq<TypeRef>
  {
    if ctors == [] then []
    else Composition(resolve, ctors[..|ctors| - 1]) + StoredFieldTypes(resolve, BodyOf(ctors[|ctors| - 1]))
  }

  /** Method `m` has a body that stores into a field of a type that counts for composition. */
  predicate StoresField(resolve: Resolver, m: MethodDef, f: TypeRef)
  {
    m.body.Some? && Stfld(f) in m.body.value && IsComposedFieldType(resolve, f)
  }

  lemma {:induction false} StoredFieldTypesMembership(resolve: Resolver, body: seq<Instruction>, f: TypeRef)
    ensures f in StoredFieldTypes(resolve, body) <==> Stfld(f) in body && IsComposedFieldType(resolve, f)
    decreases |body|
  {
    if body != [] {
      StoredFieldTypesMembership(resolve, body[..|body| - 1], f);
      assert body == body[..|body| - 1] + [body[|body| - 1]];
    }
  }

  lemma {:induction false} CompositionMembership(resolve: Resolver, ctors: seq<MethodDef>, f: TypeRef)
    ensures f in Composition(resolve, ctors) <==> exists m :: m in ctors && StoresField(resolve, m, f)
    decreases |ctors|
  {
    if ctors != [] {
      var init, last := ctors[..|ctors| - 1], ctors[|ctors| - 1];
      CompositionMembership(resolve, init, f);
      StoredFieldTypesMembership(resolve, BodyOf(last), f);
      assert ctors == init + [last];
      if f in StoredFieldTypes(resolve, BodyOf(last)) {
        assert StoresField(resolve, last, f);
      }
      if exists m :: m in ctors && StoresField(resolve, m, f) {
        var m :| m in ctors && StoresField(resolve, m, f);
        assert m == last || m in init;
      }
    }
  }

  /**
   * A composition entry is the type of a field stored by `stfld` in the body
   * of a constructor, when that type is a non-value, non-generic class.
   */
  lemma CompositionSources(resolve: Resolver, t: TypeDef, f: TypeRef)
    ensures f in Composition(resolve, Constructors(t.methods)) <==>
      exists m :: m in t.methods && m.isConstructor && StoresField(resolve, m, f)
  {
    MethodPartition(t.methods);
    CompositionMembership(resolve, Constructors(t.methods), f);
  }

  function IsUncomposed(resolve: Resolver, composed: seq<TypeRef>): TypeRef -> bool
  {
    (p: TypeRef) => IsUsableClass(resolve, p) && p !in composed
  }

  /** Constructor parameters that enter the using list: non-generic classes not yet composed. */
  function UncomposedParameters(resolve: Resolver, ps: seq<TypeRef>, composed: seq<TypeRef>): seq<TypeRef>
  {
    Filter(ps, IsUncomposed(resolve, composed))
  }

  /**
   * The using entries the constructor loop appends.  Constructor k's
   * parameters are tested against the composition list as it stands after
   * constructor k's own body was scanned.
   */
  function ConstructorUsing(resolve: Resolver, ctors: seq<MethodDef>): seq<TypeRef>
  {
    if ctors == [] then []
    else
      ConstructorUsing(resolve, ctors[..|ctors| - 1])
      + UncomposedParameters(resolve, ctors[|ctors| - 1].parameters, Composition(resolve, ctors))
  }

  /** Constructor `k` of `ctors` appends parameter `p` to the using list. */
  predicate UsedByConstructor(resolve: Resolver, ctors: seq<MethodDef>, k: int, p: TypeRef)
  {
    && 0 <= k < |ctors|
    && p in ctors[k].parameters
    && IsUsableClass(resolve, p)
    && p !in Composition(resolve, ctors[..k + 1])
  }

  lemma UsedByConstructorInPrefix(resolve: Resolver, ctors: seq<MethodDef>, n: nat, k: int, p: TypeRef)
    requires n <= |ctors| && 0 <= k < n
    ensures UsedByConstructor(resolve, ctors[..n], k, p) <==> UsedByConstructor(resolve, ctors, k, p)
  {
    assert ctors[..n][k] == ctors[k] && ctors[..n][..k + 1] == ctors[..k + 1];
  }

  /**
   * A constructor parameter is a using entry exactly when it is a non-generic
   * class missing from the composition found in that constructor and the
   * ones before it; stores in later constructors do not count.
   */
  lemma {:induction false} ConstructorUsingSources(resolve: Resolver, ctors: seq<MethodDef>, p: TypeRef)
    ensures p in ConstructorUsing(resolve, ctors) <==> exists k :: UsedByConstructor(resolve, ctors, k, p)
    decreases |ctors|
  {
    if ctors != [] {
      var n := |ctors| - 1;
      var init, last := ctors[..n], ctors[n];
      var lastUsed := UncomposedParameters(resolve, last.parameters, Composition(resolve, ctors));
      assert ConstructorUsing(resolve, ctors) == ConstructorUsing(resolve, init) + lastUsed;
      ConstructorUsingSources(resolve, init, p);
      FilterMembership(last.parameters, IsUncomposed(resolve, Composition(resolve, ctors)), p);
      assert IsUncomposed(resolve, Composition(resolve, ctors))(p)
          == (IsUsableClass(resolve, p) && p !in Composition(resolve, ctors));
      assert ctors[..n + 1] == ctors;
      if p in ConstructorUsing(resolve, init) {
        var k :| UsedByConstructor(resolve, init, k, p);
        UsedByConstructorInPrefix(resolve, ctors, n, k, p);
      } else if p in lastUsed {
        assert UsedByConstructor(resolve, ctors, n, p);
      }
      if exists k :: UsedByConstructor(resolve, ctors, k, p) {
        var k :| UsedByConstructor(resolve, ctors, k, p);
        if k < n {
          UsedByConstructorInPrefix(resolve, ctors, n, k, p);
        }
      }
    }
  }

  /** The whole using list: the method pass, then the constructor loop. */
  function Using(resolve: Resolver, t: TypeDef): seq<TypeRef>
  {
    MethodUsing(resolve, t.fullName, OrdinaryMethods(t.methods))
    + ConstructorUsing(resolve, Constructors(t.methods))
  }

  /**
   * A type is a using entry exactly when an ordinary method takes it (and it
   * is not the type itself) or a constructor takes it before composing it;
   * in both cases it is a resolvable reference class that is not generic, so
   * no value type (`int`, a struct, an enum) is ever a using entry.
   */
  lemma UsingSources(resolve: Resolver, t: TypeDef, p: TypeRef)
    ensures p in Using(resolve, t) <==>
      || ((exists m :: m in t.methods && !m.isConstructor && p in m.parameters)
          && IsUsableClass(resolve, p) && p.fullName != t.fullName)
      || (exists k :: UsedByConstructor(resolve, Constructors(t.methods), k, p))
    ensures p in Using(resolve, t) ==> IsUsableClass(resolve, p) && !p.isValueType
  {
    MethodUsingSources(resolve, t, p);
    ConstructorUsingSources(resolve, Constructors(t.methods), p);
  }

  // ---------------------------------------------------------------------------
  // Worked cases

  /** `System.Object`, the base type of every class that names no other. */
  const ObjectRef := TypeRef("System.Object", "mscorlib", false, false)
  const ObjectDef := TypeDef("System.Object", "System", true, false, false, false, None, [], [], [])

  const Wheel := TypeRef("Shop.Wheel", "Shop", false, false)
  const WheelDef := TypeDef("Shop.Wheel", "Shop", true, false, false, false, Some(ObjectRef), [], [], [])

  /**
   * A class `Car` with field `wheel` and constructor `Car(Wheel w) { this.wheel = w; }`:
   * the wheel is composed and not used, nothing is aggregated, and the only
   * inheritance entry is `System.Object`.
   */
  lemma CarComposesWheel()
    ensures
      var ctor := MethodDef(1, ".ctor", true, [Wheel], Some([Other, Stfld(Wheel)]));
      var car := TypeDef("Shop.Car", "Shop", true, false, false, false, Some(ObjectRef), [],
                         [FieldDef("wheel", Wheel)], [ctor]);
      var resolve := map[Wheel := WheelDef, ObjectRef := ObjectDef];
      && Composition(resolve, Constructors(car.methods)) == [Wheel]
      && Using(resolve, car) == []
      && Aggregation(OrdinaryMethods(car.methods)) == []
      && Inheritance(resolve, car, FinalInterfaces(resolve, car)) == [ObjectRef]
  {
    var ctor := MethodDef(1, ".ctor", true, [Wheel], Some([Other, Stfld(Wheel)]));
    var car := TypeDef("Shop.Car", "Shop", true, false, false, false, Some(ObjectRef), [],
                       [FieldDef("wheel", Wheel)], [ctor]);
    var resolve := map[Wheel := WheelDef, ObjectRef := ObjectDef];
    FilterSnoc([], ctor, IsConstructor);
    FilterSnoc([], ctor, IsOrdinary);
    assert [ctor] == [] + [ctor] && [ctor][..0] == [];
    assert Constructors(car.methods) == [ctor];
    assert OrdinaryMethods(car.methods) == [];
    assert [Other, Stfld(Wheel)][..1] == [Other] && [Other][..0] == [];
    assert StoredFieldTypes(resolve, [Other]) == [];
    assert StoredFieldTypes(resolve, [Other, Stfld(Wheel)]) == [Wheel];
    assert Composition(resolve, [ctor]) == StoredFieldTypes(resolve, BodyOf(ctor));
    assert Composition(resolve, [ctor]) == [Wheel];
    FilterSnoc([], Wheel, IsUncomposed(resolve, [Wheel]));
    assert [Wheel] == [] + [Wheel];
    assert UncomposedParameters(resolve, [Wheel], [Wheel]) == [];
    assert ConstructorUsing(resolve, [ctor]) == UncomposedParameters(resolve, [Wheel], [Wheel]);
    assert MethodUsing(resolve, car.fullName, []) == [];
    assert Using(resolve, car) == [];
    assert Aggregation([]) == [];
    assert ParentOf(resolve, car) == Some(ObjectDef) && FinalInterfaces(resolve, car) == [];
  }

  const Disposable := TypeRef("System.IDisposable", "mscorlib", false, false)
  const Logger := TypeRef("Shop.ILogger", "Shop", false, false)
  const DisposableDef := TypeDef("System.IDisposable", "System", false, true, false, false, None, [], [], [])
  const LoggerDef := TypeDef("Shop.ILogger", "Shop", false, true, false, false, None, [InterfaceImpl(3, Disposable)], [], [])

  /**
   * A class `Logger : IDisposable, ILogger`, where `ILogger` extends
   * `IDisposable`: only `ILogger` is kept.  Its base type `System.Object`
   * resolves, so the inheritance list is the parent alone and the interfaces
   * do not enter it.
   */
  lemma LoggerKeepsMostSpecificInterface()
    ensures
      var disposable := InterfaceImpl(1, Disposable);
      var logger := InterfaceImpl(2, Logger);
      var resolve := map[Disposable := DisposableDef, Logger := LoggerDef, ObjectRef := ObjectDef];
      var t := TypeDef("Shop.Logger", "Shop", true, false, false, false, Some(ObjectRef), [disposable, logger], [], []);
      && FinalInterfacesResolvable(resolve, t)
      && FinalInterfaces(resolve, t) == [logger]
      && Inheritance(resolve, t, FinalInterfaces(resolve, t)) == [ObjectRef]
  {
    var disposable := InterfaceImpl(1, Disposable);
    var logger := InterfaceImpl(2, Logger);
    var resolve := map[Disposable := DisposableDef, Logger := LoggerDef, ObjectRef := ObjectDef];
    var t := TypeDef("Shop.Logger", "Shop", true, false, false, false, Some(ObjectRef), [disposable, logger], [], []);
    var pre := [disposable, logger];
    assert ParentOf(resolve, t) == Some(ObjectDef);
    assert InterfaceNames(ObjectDef.interfaces) == {};
    assert pre == [] + [disposable] + [logger];
    FilterSnoc([], disposable, NotRemovable({}));
    FilterSnoc([disposable], logger, NotRemovable({}));
    assert SubtractedInterfaces(t, ParentOf(resolve, t)) == pre;
    assert SuperInterfaceNames(LoggerDef) == {"System.IDisposable"};
    assert SuperInterfaceNames(DisposableDef) == {};
    assert pre[..1] == [disposable] && [disposable][..0] == [];
    assert ExtendedNames(resolve, [disposable]) == {};
    var names := ExtendedNames(resolve, pre);
    assert names == {"System.IDisposable"};
    assert "Shop.ILogger" != "System.IDisposable";
    FilterSnoc([], disposable, NotRemovable(names));
    FilterSnoc([disposable], logger, NotRemovable(names));
    assert FinalInterfaces(resolve, t) == [logger];
  }

  const Foo := TypeRef("Shop.IFoo", "Shop", false, false)

  /**
   * `class Base : IFoo` and `class Derived : Base, IFoo`: each class holds its
   * own `InterfaceImplementation` for `IFoo`.  The `Except` as written keeps
   * `IFoo` in `Derived`'s list; subtracting by name removes it.
   */
  lemma InheritedInterfaceKeptAsWritten()
    ensures
      var baseRef := TypeRef("Shop.Base", "Shop", false, false);
      var baseDef := TypeDef("Shop.Base", "Shop", true, false, false, false, Some(ObjectRef), [InterfaceImpl(10, Foo)], [], []);
      var derived := TypeDef("Shop.Derived", "Shop", true, false, false, false, Some(baseRef), [InterfaceImpl(20, Foo)], [], []);
      && AsWrittenSubtractedInterfaces(derived, Some(baseDef)) == [InterfaceImpl(20, Foo)]
      && SubtractedInterfaces(derived, Some(baseDef)) == []
  {
    var baseDef := TypeDef("Shop.Base", "Shop", true, false, false, false, Some(ObjectRef), [InterfaceImpl(10, Foo)], [], []);
    var own := InterfaceImpl(20, Foo);
    assert [own][..0] == [];
    assert InterfaceNames(baseDef.interfaces) == {"Shop.IFoo"};
    assert Except([own], baseDef.interfaces) == [own];
    FilterSnoc([], own, NotRemovable({"Shop.IFoo"}));
  }

  /**
   * Order matters for constructor parameters: a parameter of the first
   * constructor is a using entry even though the second constructor composes
   * the same type, so the type ends up in both lists.
   */
  lemma LaterCompositionDoesNotRemoveUsing()
    ensures
      var first := MethodDef(1, ".ctor", true, [Wheel], Some([Other]));
      var second := MethodDef(2, ".ctor", true, [], Some([Stfld(Wheel)]));
      var resolve := map[Wheel := WheelDef];
      && ConstructorUsing(resolve, [first, second]) == [Wheel]
      && Composition(resolve, [first, second]) == [Wheel]
  {
    var first := MethodDef(1, ".ctor", true, [Wheel], Some([Other]));
    var second := MethodDef(2, ".ctor", true, [], Some([Stfld(Wheel)]));
    var resolve := map[Wheel := WheelDef];
    var ctors := [first, second];
    assert ctors[..1] == [first] && [first][..0] == [];
    assert [Other][..0] == [] && [Stfld(Wheel)][..0] == [];
    assert StoredFieldTypes(resolve, [Other]) == [];
    assert StoredFieldTypes(resolve, [Stfld(Wheel)]) == [Wheel];
    assert Composition(resolve, [first]) == [];
    assert Composition(resolve, ctors) == [Wheel];
    FilterSnoc([], Wheel, IsUncomposed(resolve, []));
    assert [Wheel] == [] + [Wheel];
    assert UncomposedParameters(resolve, [Wheel], []) == [Wheel];
    assert ConstructorUsing(resolve, [first]) == [Wheel];
    assert UncomposedParameters(resolve, [], [Wheel]) == [];
  }

  const Node := TypeRef("Shop.Node", "Shop", false, false)
  const NodeDef := TypeDef("Shop.Node", "Shop", true, false, false, false, Some(ObjectRef), [], [], [])

  /**
   * Only the method pass excludes the type itself: a class that builds an
   * instance of itself in an ordinary method aggregates itself, and one that
   * stores a field of its own type in a constructor composes itself.
   */
  lemma SelfReferenceIsNotExcluded()
    ensures
      var clone := MethodDef(1, "Clone", false, [Node], Some([Newobj(Node)]));
      var ctor := MethodDef(2, ".ctor", true, [], Some([Stfld(Node)]));
      && Aggregation([clone]) == [Node]
      && Composition(map[Node := NodeDef], [ctor]) == [Node]
      && UsedParameters(map[Node := NodeDef], Node.fullName, clone.parameters) == []
  {
    var resolve := map[Node := NodeDef];
    var clone := MethodDef(1, "Clone", false, [Node], Some([Newobj(Node)]));
    var ctor := MethodDef(2, ".ctor", true, [], Some([Stfld(Node)]));
    assert [Newobj(Node)][..0] == [] && [Stfld(Node)][..0] == [];
    assert NewobjTargets([Newobj(Node)]) == [Node];
    assert [clone][..0] == [];
    assert Aggregation([clone]) == NewobjTargets(BodyOf(clone));
    assert StoredFieldTypes(resolve, [Stfld(Node)]) == [Node];
    assert [ctor][..0] == [];
    assert Composition(resolve, [ctor]) == StoredFieldTypes(resolve, BodyOf(ctor));
    FilterSnoc([], Node, IsUsedParameter(resolve, Node.fullName));
    assert [Node] == [] + [Node];
  }

  // ---------------------------------------------------------------------------
  // As written: entries recorded with `GetType()` of the Cecil object

  /** The runtime class of the Cecil object on which the source calls `GetType()`. */
  datatype WrapperClass = ParameterDefinitionClass | TypeDefinitionClass

  /** `Type.IsClass` and `Type.IsGenericType` of those runtime classes: all are non-generic classes. */
  predicate WrapperIsClass(c: WrapperClass) { true }

  predicate WrapperIsGeneric(c: WrapperClass) { false }

  /**
   * The method pass over one parameter list as written: `argument.GetType()`
   * is the parameter object's class, compared with `_typeObj.GetType()`.
   */
  function AsWrittenUsedParameters(ps: seq<TypeRef>): seq<WrapperClass>
  {
    if ps == [] then []
    else
      var related := ParameterDefinitionClass;
      AsWrittenUsedParameters(ps[..|ps| - 1])
      + (if WrapperIsClass(related) && related != TypeDefinitionClass && !WrapperIsGeneric(related)
         then [related] else [])
  }

  /** As written, every parameter passes the filter and all entries are the same value. */
  lemma {:induction false} AsWrittenUsingCollapses(ps: seq<TypeRef>)
    ensures |AsWrittenUsedParameters(ps)| == |ps|
    ensures forall k :: 0 <= k < |ps| ==> AsWrittenUsedParameters(ps)[k] == ParameterDefinitionClass
    decreases |ps|
  {
    if ps != [] {
      AsWrittenUsingCollapses(ps[..|ps| - 1]);
    }
  }

  /**
   * The parameter test of the constructor loop as written:
   * `parameter.Resolve().GetType()` is again the parameter object's class,
   * looked up in a composition list that holds `classType.Resolve().GetType()`
   * entries.
   */
  function AsWrittenUncomposedParameters(ps: seq<TypeRef>, composed: seq<WrapperClass>): seq<WrapperClass>
  {
    if ps == [] then []
    else
      var parameterType := ParameterDefinitionClass;
      AsWrittenUncomposedParameters(ps[..|ps| - 1], composed)
      + (if WrapperIsClass(parameterType) && !WrapperIsGeneric(parameterType) && parameterType !in composed
         then [parameterType] else [])
  }

  /**
   * The stores of one constructor body as written: a qualifying field type is
   * entered as `classType.Resolve().GetType()`, the class of the resolved
   * `TypeDefinition`.
   */
  function AsWrittenStoredFieldTypes(resolve: Resolver, body: seq<Instruction>): seq<WrapperClass>
  {
    if body == [] then []
    else
      AsWrittenStoredFieldTypes(resolve, body[..|body| - 1])
      + match body[|body| - 1]
        case Stfld(f) => if IsComposedFieldType(resolve, f) then [TypeDefinitionClass] else []
        case _ => []
  }

  function AsWrittenComposition(resolve: Resolver, ctors: seq<MethodDef>): seq<WrapperClass>
  {
    if ctors == [] then []
    else AsWrittenComposition(resolve, ctors[..|ctors| - 1]) + AsWrittenStoredFieldTypes(resolve, BodyOf(ctors[|ctors| - 1]))
  }

  /** As written, the composition list has an entry where the referenced-type one does, always `TypeDefinition`. */
  lemma {:induction false} AsWrittenStoredFieldTypesShape(resolve: Resolver, body: seq<Instruction>)
    ensures |AsWrittenStoredFieldTypes(resolve, body)| == |StoredFieldTypes(resolve, body)|
    ensures forall k :: 0 <= k < |AsWrittenStoredFieldTypes(resolve, body)| ==>
              AsWrittenStoredFieldTypes(resolve, body)[k] == TypeDefinitionClass
    decreases |body|
  {
    if body != [] {
      AsWrittenStoredFieldTypesShape(resolve, body[..|body| - 1]);
    }
  }

  lemma {:induction false} AsWrittenCompositionShape(resolve: Resolver, ctors: seq<MethodDef>)
    ensures |AsWrittenComposition(resolve, ctors)| == |Composition(resolve, ctors)|
    ensures forall k :: 0 <= k < |AsWrittenComposition(resolve, ctors)| ==>
              AsWrittenComposition(resolve, ctors)[k] == TypeDefinitionClass
    decreases |ctors|
  {
    if ctors != [] {
      AsWrittenCompositionShape(resolve, ctors[..|ctors| - 1]);
      AsWrittenStoredFieldTypesShape(resolve, BodyOf(ctors[|ctors| - 1]));
    }
  }

  lemma {:induction false} AsWrittenParametersNeverComposed(ps: seq<TypeRef>, composed: seq<WrapperClass>)
    requires ParameterDefinitionClass !in composed
    ensures |AsWrittenUncomposedParameters(ps, composed)| == |ps|
    ensures forall k :: 0 <= k < |ps| ==> AsWrittenUncomposedParameters(ps, composed)[k] == ParameterDefinitionClass
    decreases |ps|
  {
    if ps != [] {
      AsWrittenParametersNeverComposed(ps[..|ps| - 1], composed);
    }
  }

  /**
   * As written, the composition list built from any constructors holds only
   * `TypeDefinition`, so the "not already composed" test never rejects a
   * parameter: every constructor parameter, value types included, becomes
   * the same using entry.
   */
  lemma AsWrittenConstructorParametersAllUsed(resolve: Resolver, ctors: seq<MethodDef>, ps: seq<TypeRef>)
    ensures var composed := AsWrittenComposition(resolve, ctors);
      && |AsWrittenUncomposedParameters(ps, composed)| == |ps|
      && forall k :: 0 <= k < |ps| ==> AsWrittenUncomposedParameters(ps, composed)[k] == ParameterDefinitionClass
  {
    var composed := AsWrittenComposition(resolve, ctors);
    AsWrittenCompositionShape(resolve, ctors);
    assert ParameterDefinitionClass !in composed;
    AsWrittenParametersNeverComposed(ps, composed);
  }

  const ValueTypeRef := TypeRef("System.ValueType", "mscorlib", false, false)
  /** Cecil reports a struct such as `int` as a class that is a value type. */
  const Int32 := TypeRef("System.Int32", "mscorlib", true, false)
  const Engine := TypeRef("Shop.Engine", "Shop", false, false)
  const DriveResolver: Resolver := map[
    Int32 := TypeDef("System.Int32", "System", true, false, true, false, Some(ValueTypeRef), [], [], []),
    Wheel := WheelDef,
    Engine := TypeDef("Shop.Engine", "Shop", true, false, false, false, None, [], [], [])]

  /**
   * A method `Drive(int speed, Wheel w, Engine e)`: as written it records three
   * equal entries, one of them for the value type `int`; with referenced
   * types the using entries are `Wheel` and `Engine`.
   */
  lemma AsWrittenUsingLosesTypes()
    ensures AsWrittenUsedParameters([Int32, Wheel, Engine])
      == [ParameterDefinitionClass, ParameterDefinitionClass, ParameterDefinitionClass]
    ensures UsedParameters(DriveResolver, "Shop.Car", [Int32, Wheel, Engine]) == [Wheel, Engine]
  {
    AsWrittenUsingCollapses([Int32, Wheel, Engine]);
    var used := IsUsedParameter(DriveResolver, "Shop.Car");
    assert !used(Int32) && used(Wheel) && used(Engine);
    assert [Int32, Wheel, Engine] == [] + [Int32] + [Wheel] + [Engine];
    FilterSnoc([], Int32, used);
    FilterSnoc([Int32], Wheel, used);
    FilterSnoc([Int32, Wheel], Engine, used);
  }
}
