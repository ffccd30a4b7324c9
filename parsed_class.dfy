/**
 * `ParsedClassMonoCecil`: the object built for one type definition.  Its
 * constructor fills the method lists, the interface list and the four
 * relationship lists with loops over the metadata; each loop is one of the
 * static methods below, proved to compute the matching function of module
 * `Relations`.
 */
module ClassParsing {
  import opened Metadata
  import opened Seqs
  import opened Relations

  /**
   * An instruction the constructor can process without a null dereference:
   * in an ordinary method, a `newobj` of a non-generic type calls `Resolve()`
   * on it; in a constructor, an `stfld` into a non-value field type does.
   */
  predicate InstructionResolves(resolve: Resolver, inConstructor: bool, ins: Instruction)
  {
    match ins
    case Newobj(d) => inConstructor || d.isGenericInstance || d in resolve
    case Stfld(f) => !inConstructor || f.isValueType || f in resolve
    case Other => true
  }

  predicate BodyResolves(resolve: Resolver, m: MethodDef)
  {
    forall k :: 0 <= k < |BodyOf(m)| ==> InstructionResolves(resolve, m.isConstructor, BodyOf(m)[k])
  }

  /**
   * What the constructor needs of its input: each method definition listed
   * once, every interface it resolves does resolve, and every operand it
   * resolves does resolve.
   */
  predicate Extractable(resolve: Resolver, t: TypeDef)
  {
    && NoDuplicates(t.methods)
    && FinalInterfacesResolvable(resolve, t)
    && forall m :: m in t.methods ==> BodyResolves(resolve, m)
  }

  /**
   * The source assigns these fields in the constructor only and exposes them
   * through getters, so here they are constants fixed at construction.
   */
  class ParsedClassMonoCecil {
    const typeObj: TypeDef
    const name: string
    const constructors: seq<MethodDef>
    const methods: seq<MethodDef>
    const parentClass: Option<TypeDef>
    const interfaces: seq<InterfaceImpl>
    const fields: seq<FieldDef>
    const compositionList: seq<TypeRef>
    const aggregationList: seq<TypeRef>
    const usingList: seq<TypeRef>
    const inheritanceList: seq<TypeRef>

    /** The state the constructor leaves: every list is what its pass computes from the metadata. */
    ghost predicate Extracted(resolve: Resolver)
    {
      && FinalInterfacesResolvable(resolve, typeObj)
      && name == typeObj.fullName
      && constructors == Constructors(typeObj.methods)
      && methods == OrdinaryMethods(typeObj.methods)
      && parentClass == ParentOf(resolve, typeObj)
      && interfaces == FinalInterfaces(resolve, typeObj)
      && fields == typeObj.fields
      && usingList == Using(resolve, typeObj)
      && aggregationList == Aggregation(methods)
      && compositionList == Composition(resolve, constructors)
      && inheritanceList == Inheritance(resolve, typeObj, interfaces)
    }

    /**
     * Runs every pass over `t` in the source's order.  Each field is set once,
     * from the result of its pass, before the object is published by `new`.
     */
    constructor (t: TypeDef, resolve: Resolver)
      requires Extractable(resolve, t)
      ensures typeObj == t && Extracted(resolve)
    {
      typeObj := t;
      name := t.fullName;
      var ctors, ordinary := SplitMethods(t.methods);
      constructors, methods := ctors, ordinary;
      var parent := ParentOf(resolve, t);
      parentClass := parent;
      var ifaces := [];
      if |t.interfaces| > 0 {
        ifaces := t.interfaces;
        if parent.Some? {
          ifaces := KeepInterfaces(t.interfaces, InterfaceNames(parent.value.interfaces));
        }
        assert ifaces == SubtractedInterfaces(t, parent);
        var removable := RemovableInterfaceNames(resolve, ifaces);
        ifaces := KeepInterfaces(ifaces, removable);
      }
      interfaces := ifaces;
      fields := t.fields;
      PartitionKeepsDistinct(t.methods);
      ConstructorsResolve(resolve, t);
      var dict := GetFunctionParameters(ordinary);
      var using := MethodParameterUsing(resolve, t.fullName, ordinary, dict);
      var inheritance := CollectInheritance(resolve, t, parent, ifaces);
      var aggregation := CollectAggregation(ordinary);
      var composition;
      composition, using := CollectComposition(resolve, ctors, using);
      usingList, inheritanceList, aggregationList, compositionList := using, inheritance, aggregation, composition;
    }

    /** Every constructor of an extractable type is one whose field stores resolve. */
    static lemma ConstructorsResolve(resolve: Resolver, t: TypeDef)
      requires Extractable(resolve, t)
      ensures forall m :: m in Constructors(t.methods) ==> m.isConstructor && BodyResolves(resolve, m)
    {
      forall m | m in Constructors(t.methods)
        ensures m.isConstructor && BodyResolves(resolve, m)
      {
        FilterMembership(t.methods, IsConstructor, m);
      }
    }

    /** Splits `ms` by `IsConstructor`, keeping declaration order in both lists. */
    static method SplitMethods(ms: seq<MethodDef>) returns (ctors: seq<MethodDef>, ordinary: seq<MethodDef>)
      ensures ctors == Constructors(ms) && ordinary == OrdinaryMethods(ms)
    {
      ctors, ordinary := [], [];
      for i := 0 to |ms|
        invariant ctors == Constructors(ms[..i]) && ordinary == OrdinaryMethods(ms[..i])
      {
        assert ms[..i + 1] == ms[..i] + [ms[i]];
        FilterSnoc(ms[..i], ms[i], IsConstructor);
        FilterSnoc(ms[..i], ms[i], IsOrdinary);
        if ms[i].isConstructor {
          ctors := ctors + [ms[i]];
        } else {
          ordinary := ordinary + [ms[i]];
        }
      }
      assert ms[..|ms|] == ms;
    }

    /** `removableInterfaceNames`: the names of the interfaces that the interfaces of `ifaces` extend. */
    static method RemovableInterfaceNames(resolve: Resolver, ifaces: seq<InterfaceImpl>) returns (removable: set<string>)
      requires InterfacesResolve(resolve, ifaces)
      ensures removable == ExtendedNames(resolve, ifaces)
    {
      removable := {};
      for k := 0 to |ifaces|
        invariant InterfacesResolve(resolve, ifaces[..k])
        invariant removable == ExtendedNames(resolve, ifaces[..k])
      {
        var supers := resolve[ifaces[k].interfaceType].interfaces;
        ghost var before := removable;
        for j := 0 to |supers|
          invariant removable == before + set x | x in supers[..j] :: x.interfaceType.fullName
        {
          assert supers[..j + 1] == supers[..j] + [supers[j]];
          removable := removable + {supers[j].interfaceType.fullName};
        }
        assert supers[..|supers|] == supers;
        assert ifaces[..k + 1][..k] == ifaces[..k];
        assert InterfacesResolve(resolve, ifaces[..k + 1]);
      }
      assert ifaces[..|ifaces|] == ifaces;
    }

    /**
     * Keeps, in order, the interfaces whose full name is not in `removable`:
     * the names the parent lists, or the names other interfaces extend.
     */
    static method KeepInterfaces(ifaces: seq<InterfaceImpl>, removable: set<string>) returns (kept: seq<InterfaceImpl>)
      ensures kept == NonRedundant(ifaces, removable)
    {
      kept := [];
      for k := 0 to |ifaces|
        invariant kept == NonRedundant(ifaces[..k], removable)
      {
        assert ifaces[..k + 1] == ifaces[..k] + [ifaces[k]];
        FilterSnoc(ifaces[..k], ifaces[k], NotRemovable(removable));
        if ifaces[k].interfaceType.fullName !in removable {
          kept := kept + [ifaces[k]];
        }
      }
      assert ifaces[..|ifaces|] == ifaces;
    }

    /**
     * Maps every ordinary method to its parameter list.  The source reads
     * the `_methods` field; the constructor passes the list it has just
     * computed for that field.  `Dictionary.Add` throws on a key that is
     * already present; the definitions are distinct, so it never does.
     */
    static method GetFunctionParameters(methods: seq<MethodDef>) returns (dict: map<MethodDef, seq<TypeRef>>)
      requires NoDuplicates(methods)
      ensures dict.Keys == set m | m in methods
      ensures forall m :: m in dict ==> dict[m] == m.parameters
    {
      dict := map[];
      for i := 0 to |methods|
        invariant dict.Keys == set m | m in methods[..i]
        invariant forall m :: m in dict ==> dict[m] == m.parameters
      {
        assert methods[i] !in dict;
        assert methods[..i + 1] == methods[..i] + [methods[i]];
        dict := dict[methods[i] := methods[i].parameters];
      }
      assert methods[..|methods|] == methods;
    }

    /**
     * The using pass over the dictionary, enumerated in insertion order `ms`.
     * Parameters of constructors would be skipped, but no key is one.
     */
    static method MethodParameterUsing(resolve: Resolver, self: string, ms: seq<MethodDef>,
                                       dict: map<MethodDef, seq<TypeRef>>) returns (using: seq<TypeRef>)
      requires forall m :: m in ms ==> m in dict && dict[m] == m.parameters
      ensures using == MethodUsing(resolve, self, ms)
    {
      using := [];
      for i := 0 to |ms|
        invariant using == MethodUsing(resolve, self, ms[..i])
      {
        var key := ms[i];
        using := AppendUsedParameters(resolve, self, key, dict[key], using);
        assert ms[..i + 1][..i] == ms[..i];
      }
      assert ms[..|ms|] == ms;
    }

    /** One dictionary entry of the using pass: `arguments` are the parameters of `key`. */
    static method AppendUsedParameters(resolve: Resolver, self: string, key: MethodDef,
                                       arguments: seq<TypeRef>, using0: seq<TypeRef>) returns (using: seq<TypeRef>)
      ensures using == using0 + if key.isConstructor then [] else UsedParameters(resolve, self, arguments)
    {
      using := using0;
      for j := 0 to |arguments|
        invariant key.isConstructor ==> using == using0
        invariant !key.isConstructor ==> using == using0 + UsedParameters(resolve, self, arguments[..j])
      {
        assert arguments[..j + 1] == arguments[..j] + [arguments[j]];
        FilterSnoc(arguments[..j], arguments[j], IsUsedParameter(resolve, self));
        var relatedClass := arguments[j];
        if IsUsableClass(resolve, relatedClass) && relatedClass.fullName != self {
          if key.isConstructor {
            continue;
          } else {
            using := using + [relatedClass];
          }
        }
      }
      assert arguments[..|arguments|] == arguments;
    }

    /** The parent alone when one resolved, otherwise one entry per final interface, in order. */
    static method CollectInheritance(resolve: Resolver, t: TypeDef, parent: Option<TypeDef>,
                                     ifaces: seq<InterfaceImpl>) returns (inheritance: seq<TypeRef>)
      requires parent == ParentOf(resolve, t)
      ensures inheritance == Inheritance(resolve, t, ifaces)
      ensures parent.Some? ==> inheritance == [t.baseType.value]
      ensures parent.None? ==>
        |inheritance| == |ifaces| && forall k :: 0 <= k < |ifaces| ==> inheritance[k] == ifaces[k].interfaceType
    {
      inheritance := [];
      if parent.Some? {
        inheritance := inheritance + [t.baseType.value];
      } else {
        for k := 0 to |ifaces|
          invariant |inheritance| == k
          invariant forall j :: 0 <= j < k ==> inheritance[j] == ifaces[j].interfaceType
        {
          inheritance := inheritance + [ifaces[k].interfaceType];
        }
      }
    }

    /** The aggregation pass: `newobj` targets in the bodies of `ms`, generic instances skipped. */
    static method CollectAggregation(ms: seq<MethodDef>) returns (aggregation: seq<TypeRef>)
      ensures aggregation == Aggregation(ms)
    {
      aggregation := [];
      for i := 0 to |ms|
        invariant aggregation == Aggregation(ms[..i])
      {
        if ms[i].body.Some? {
          aggregation := AppendNewobjTargets(ms[i].body.value, aggregation);
        }
        assert ms[..i + 1][..i] == ms[..i];
      }
      assert ms[..|ms|] == ms;
    }

    /** One method body of the aggregation pass. */
    static method AppendNewobjTargets(instructions: seq<Instruction>, aggregation0: seq<TypeRef>)
      returns (aggregation: seq<TypeRef>)
      ensures aggregation == aggregation0 + NewobjTargets(instructions)
    {
      aggregation := aggregation0;
      for k := 0 to |instructions|
        invariant aggregation == aggregation0 + NewobjTargets(instructions[..k])
      {
        assert instructions[..k + 1][..k] == instructions[..k];
        var inst := instructions[k];
        if inst.Newobj? {
          var objectType := inst.declaringType;
          if !objectType.isGenericInstance {
            aggregation := aggregation + [objectType];
          }
        }
      }
      assert instructions[..|instructions|] == instructions;
    }

    /**
     * The constructor loop: field stores found in each constructor's body go
     * to the composition list, then that constructor's parameters that are
     * non-generic classes not composed so far are appended to `using0`.
     */
    static method CollectComposition(resolve: Resolver, ctors: seq<MethodDef>, using0: seq<TypeRef>)
      returns (composition: seq<TypeRef>, using: seq<TypeRef>)
      requires forall m :: m in ctors ==> m.isConstructor && BodyResolves(resolve, m)
      ensures composition == Composition(resolve, ctors)
      ensures using == using0 + ConstructorUsing(resolve, ctors)
    {
      composition, using := [], using0;
      for i := 0 to |ctors|
        invariant composition == Composition(resolve, ctors[..i])
        invariant using == using0 + ConstructorUsing(resolve, ctors[..i])
      {
        assert ctors[i] in ctors;
        ghost var scanned := ctors[..i + 1];
        assert scanned[..i] == ctors[..i] && scanned[i] == ctors[i];
        composition, using := ScanConstructor(resolve, ctors[i], composition, using);
      }
      assert ctors[..|ctors|] == ctors;
    }

    /**
     * One iteration of the constructor loop: the field stores of `ctor`'s
     * body, then its parameters tested against the composition list so far.
     */
    static method ScanConstructor(resolve: Resolver, ctor: MethodDef, composition0: seq<TypeRef>, using0: seq<TypeRef>)
      returns (composition: seq<TypeRef>, using: seq<TypeRef>)
      requires ctor.isConstructor && BodyResolves(resolve, ctor)
      ensures composition == composition0 + StoredFieldTypes(resolve, BodyOf(ctor))
      ensures using == using0 + UncomposedParameters(resolve, ctor.parameters, composition)
    {
      composition := composition0;
      var parameterList := ctor.parameters;
      if ctor.body.Some? {
        assert BodyOf(ctor) == ctor.body.value;
        composition := AppendFieldStores(resolve, ctor.body.value, composition);
      }
      using := AppendUncomposedParameters(resolve, parameterList, composition, using0);
    }

    /** One constructor body of the composition pass. */
    static method AppendFieldStores(resolve: Resolver, instructions: seq<Instruction>, composition0: seq<TypeRef>)
      returns (composition: seq<TypeRef>)
      requires forall k :: 0 <= k < |instructions| ==> InstructionResolves(resolve, true, instructions[k])
      ensures composition == composition0 + StoredFieldTypes(resolve, instructions)
    {
      composition := composition0;
      for k := 0 to |instructions|
        invariant composition == composition0 + StoredFieldTypes(resolve, instructions[..k])
      {
        assert instructions[..k + 1][..k] == instructions[..k];
        var inst := instructions[k];
        if inst.Stfld? {
          var fieldType := inst.fieldType;
          if !fieldType.isValueType {
            assert InstructionResolves(resolve, true, instructions[k]);
            var classType := resolve[fieldType];
            if classType.isClass && !classType.isGenericInstance {
              composition := composition + [fieldType];
            }
          }
        }
      }
      assert instructions[..|instructions|] == instructions;
    }

    /** One constructor's parameters: non-generic classes missing from `composed` are used. */
    static method AppendUncomposedParameters(resolve: Resolver, parameterList: seq<TypeRef>,
                                             composed: seq<TypeRef>, using0: seq<TypeRef>)
      returns (using: seq<TypeRef>)
      ensures using == using0 + UncomposedParameters(resolve, parameterList, composed)
    {
      using := using0;
      for j := 0 to |parameterList|
        invariant using == using0 + UncomposedParameters(resolve, parameterList[..j], composed)
      {
        assert parameterList[..j + 1] == parameterList[..j] + [parameterList[j]];
        FilterSnoc(parameterList[..j], parameterList[j], IsUncomposed(resolve, composed));
        var parameterType := parameterList[j];
        if IsUsableClass(resolve, parameterType) && parameterType !in composed {
          using := using + [parameterType];
        }
      }
      assert parameterList[..|parameterList|] == parameterList;
    }
  }
}
