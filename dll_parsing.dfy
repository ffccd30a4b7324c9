/**
 * `ParsedDLLFile`: the object built for one assembly.  Its constructor walks
 * the assembly twice.  The Reflection pass sorts the types `GetTypes()`
 * reports into parsed classes and parsed interfaces; the Mono.Cecil pass
 * builds one `ParsedClassMonoCecil` per class of the main module.  Each pass
 * first drops types by a namespace-prefix filter, and the two filters differ.
 */
module DllParsing {
  import opened Metadata
  import opened Seqs
  import opened ClassParsing

  /**
   * A `System.Type` as the Reflection pass sees it.  `namespace` is `None`
   * for a type declared outside every namespace, where Reflection gives null.
   */
  datatype RuntimeType = RuntimeType(
    fullName: string,
    namespace: Option<string>,
    isClass: bool,
    isValueType: bool,
    isInterface: bool,
    isEnum: bool)

  /** The records the Reflection pass creates; what their constructors read is not part of this model. */
  datatype ParsedClass = ParsedClass(classType: RuntimeType)
  datatype ParsedInterface = ParsedInterface(interfaceType: RuntimeType)

  /** `String.StartsWith`, compared character by character. */
  predicate StartsWith(s: string, prefix: string)
  {
    |prefix| <= |s| && s[..|prefix|] == prefix
  }

  // ---------------------------------------------------------------------------
  // The Reflection pass

  /** Types the Reflection pass skips: no namespace, or one under `System.`, `Microsoft.` or `Mono.`. */
  predicate ReflectionOutOfScope(namespace: Option<string>)
  {
    namespace.None? ||
    StartsWith(namespace.value, "System.") ||
    StartsWith(namespace.value, "Microsoft.") ||
    StartsWith(namespace.value, "Mono.")
  }

  /** An in-scope type that becomes a `ParsedClass`: a class that is not a value type. */
  predicate IsReflectionClass(t: RuntimeType)
  {
    !ReflectionOutOfScope(t.namespace) && t.isClass && !t.isValueType
  }

  /** An in-scope type that becomes a `ParsedInterface`: not a class, and an interface. */
  predicate IsReflectionInterface(t: RuntimeType)
  {
    !ReflectionOutOfScope(t.namespace) && !t.isClass && t.isInterface
  }

  function ParsedClasses(ts: seq<RuntimeType>): seq<ParsedClass>
  {
    seq(|ts|, i requires 0 <= i < |ts| => ParsedClass(ts[i]))
  }

  function ParsedInterfaces(ts: seq<RuntimeType>): seq<ParsedInterface>
  {
    seq(|ts|, i requires 0 <= i < |ts| => ParsedInterface(ts[i]))
  }

  /** What `classObjList` holds after the Reflection pass over `types`. */
  function ReflectionClasses(types: seq<RuntimeType>): seq<ParsedClass>
  {
    ParsedClasses(Filter(types, IsReflectionClass))
  }

  /** What `interfaceObjList` holds after the Reflection pass over `types`. */
  function ReflectionInterfaces(types: seq<RuntimeType>): seq<ParsedInterface>
  {
    ParsedInterfaces(Filter(types, IsReflectionInterface))
  }

  lemma ParsedClassesMembership(ts: seq<RuntimeType>, t: RuntimeType)
    ensures ParsedClass(t) in ParsedClasses(ts) <==> t in ts
  {
    if t in ts {
      var i :| 0 <= i < |ts| && ts[i] == t;
      assert ParsedClasses(ts)[i] == ParsedClass(t);
    }
  }

  lemma ParsedInterfacesMembership(ts: seq<RuntimeType>, t: RuntimeType)
    ensures ParsedInterface(t) in ParsedInterfaces(ts) <==> t in ts
  {
    if t in ts {
      var i :| 0 <= i < |ts| && ts[i] == t;
      assert ParsedInterfaces(ts)[i] == ParsedInterface(t);
    }
  }

  /**
   * A type gets a `ParsedClass` exactly when it is enumerated, its namespace
   * is in scope, and it is a class that is not a value type.
   */
  lemma ReflectionClassesSpec(types: seq<RuntimeType>, t: RuntimeType)
    ensures ParsedClass(t) in ReflectionClasses(types) <==>
            t in types && t.namespace.Some? && !ReflectionOutOfScope(t.namespace) && t.isClass && !t.isValueType
  {
    FilterMembership(types, IsReflectionClass, t);
    ParsedClassesMembership(Filter(types, IsReflectionClass), t);
  }

  /**
   * A type gets a `ParsedInterface` exactly when it is enumerated, its
   * namespace is in scope, and it is an interface that is not a class.
   */
  lemma ReflectionInterfacesSpec(types: seq<RuntimeType>, t: RuntimeType)
    ensures ParsedInterface(t) in ReflectionInterfaces(types) <==>
            t in types && t.namespace.Some? && !ReflectionOutOfScope(t.namespace) && !t.isClass && t.isInterface
  {
    FilterMembership(types, IsReflectionInterface, t);
    ParsedInterfacesMembership(Filter(types, IsReflectionInterface), t);
  }

  /**
   * Each type lands in at most one list; a skipped type, an enum and a type
   * of any other kind land in none.
   */
  lemma ReflectionKindsExclusive(types: seq<RuntimeType>, t: RuntimeType)
    ensures !(ParsedClass(t) in ReflectionClasses(types) && ParsedInterface(t) in ReflectionInterfaces(types))
    ensures ReflectionOutOfScope(t.namespace) ==>
              ParsedClass(t) !in ReflectionClasses(types) && ParsedInterface(t) !in ReflectionInterfaces(types)
    ensures !t.isClass && !t.isInterface ==>
              ParsedClass(t) !in ReflectionClasses(types) && ParsedInterface(t) !in ReflectionInterfaces(types)
  {
    ReflectionClassesSpec(types, t);
    ReflectionInterfacesSpec(types, t);
  }

  /** Both lists keep the enumeration order of `types`. */
  lemma ReflectionOrder(types: seq<RuntimeType>)
    ensures Subsequence(Filter(types, IsReflectionClass), types)
    ensures Subsequence(Filter(types, IsReflectionInterface), types)
  {
    FilterIsSubsequence(types, IsReflectionClass);
    FilterIsSubsequence(types, IsReflectionInterface);
  }

  // ---------------------------------------------------------------------------
  // The Mono.Cecil pass

  /**
   * Types the Cecil pass skips: the global namespace (Cecil gives ""), or a
   * namespace starting with `System` or `Microsoft`, with no dot required.
   */
  predicate CecilOutOfScope(namespace: string)
  {
    namespace == "" || StartsWith(namespace, "System") || StartsWith(namespace, "Microsoft")
  }

  /** An in-scope type that gets a `ParsedClassMonoCecil`: `IsClass && !IsValueType`. */
  predicate IsCecilClass(t: TypeDef)
  {
    !CecilOutOfScope(t.namespace) && t.isClass && !t.isValueType
  }

  /** The definitions `classObjListMC` is built from, in module order. */
  function CecilClasses(moduleTypes: seq<TypeDef>): seq<TypeDef>
  {
    Filter(moduleTypes, IsCecilClass)
  }

  /**
   * A definition gets a `ParsedClassMonoCecil` exactly when it is a type of
   * the module, its namespace is in scope, and it is a class that is not a
   * value type; interfaces and other kinds get none.  The list keeps module
   * order.
   */
  lemma CecilClassesSpec(moduleTypes: seq<TypeDef>, t: TypeDef)
    ensures t in CecilClasses(moduleTypes) <==>
            t in moduleTypes && t.namespace != "" && !CecilOutOfScope(t.namespace) && t.isClass && !t.isValueType
    ensures Subsequence(CecilClasses(moduleTypes), moduleTypes)
  {
    FilterMembership(moduleTypes, IsCecilClass, t);
    FilterIsSubsequence(moduleTypes, IsCecilClass);
  }

  /**
   * Every namespace the Cecil pass keeps is one the Reflection pass keeps too,
   * except for those under `Mono.`, which only the Cecil pass keeps.
   */
  lemma CecilScopeAgainstReflection(namespace: string)
    requires !CecilOutOfScope(namespace)
    ensures ReflectionOutOfScope(Some(namespace)) <==> StartsWith(namespace, "Mono.")
  {
  }

  /**
   * Namespaces on which the two filters disagree: `Mono.Foo` is dropped by
   * the Reflection pass only; `System` and `SystemX` by the Cecil pass only.
   */
  lemma FiltersDisagree()
    ensures ReflectionOutOfScope(Some("Mono.Foo")) && !CecilOutOfScope("Mono.Foo")
    ensures !ReflectionOutOfScope(Some("System")) && CecilOutOfScope("System")
    ensures !ReflectionOutOfScope(Some("SystemX")) && CecilOutOfScope("SystemX")
  {
    assert "Mono.Foo"[..5] == "Mono.";
    assert "Mono.Foo"[..6][0] != "System"[0];
    assert "System"[..6] == "System";
    assert "System"[0] != "Microsoft"[0] && "System"[0] != "Mono."[0];
    assert "SystemX"[..6] == "System";
    assert "SystemX"[..7][6] != "System."[6];
    assert "SystemX"[0] != "Microsoft."[0] && "SystemX"[0] != "Mono."[0];
  }

  // ---------------------------------------------------------------------------
  // The parsed file

  /** As in the class object, the lists are filled by the constructor alone. */
  class ParsedDLLFile {
    const dllFileName: string
    const classObjList: seq<ParsedClass>
    const interfaceObjList: seq<ParsedInterface>
    const classObjListMC: seq<ParsedClassMonoCecil>

    /**
     * Parses one assembly: `types` is what Reflection's `GetTypes()` gives,
     * `moduleTypes` the types of the main module as Cecil reads them, and
     * `resolve` Cecil's resolution of the references they contain.
     */
    constructor (fileName: string, types: seq<RuntimeType>, moduleTypes: seq<TypeDef>, resolve: Resolver)
      requires forall t :: t in moduleTypes && IsCecilClass(t) ==> Extractable(resolve, t)
      ensures dllFileName == fileName
      ensures classObjList == ReflectionClasses(types)
      ensures interfaceObjList == ReflectionInterfaces(types)
      ensures |classObjListMC| == |CecilClasses(moduleTypes)|
      ensures forall i :: 0 <= i < |classObjListMC| ==>
                classObjListMC[i].typeObj == CecilClasses(moduleTypes)[i] && classObjListMC[i].Extracted(resolve)
    {
      dllFileName := fileName;
      var classes, interfaces := ReflectionPass(types);
      classObjList, interfaceObjList := classes, interfaces;
      var objects := CecilPass(moduleTypes, resolve);
      classObjListMC := objects;
    }

    /** The `foreach` over the Reflection types. */
    static method ReflectionPass(types: seq<RuntimeType>) returns (classes: seq<ParsedClass>, interfaces: seq<ParsedInterface>)
      ensures classes == ReflectionClasses(types)
      ensures interfaces == ReflectionInterfaces(types)
    {
      classes, interfaces := [], [];
      for i := 0 to |types|
        invariant classes == ReflectionClasses(types[..i])
        invariant interfaces == ReflectionInterfaces(types[..i])
      {
        var t := types[i];
        assert types[..i + 1] == types[..i] + [t];
        FilterSnoc(types[..i], t, IsReflectionClass);
        FilterSnoc(types[..i], t, IsReflectionInterface);
        if t.namespace.Some? {
          var ns := t.namespace.value;
          if StartsWith(ns, "System.") || StartsWith(ns, "Microsoft.") || StartsWith(ns, "Mono.") {
            continue;
          }
          if t.isClass {
            if !t.isValueType {
              classes := classes + [ParsedClass(t)];
            }
          } else if t.isInterface {
            interfaces := interfaces + [ParsedInterface(t)];
          } else if t.isEnum {
            // enums are ignored
          }
        }
      }
      assert types[..|types|] == types;
    }

    /** The `foreach` over the module's types. */
    static method CecilPass(moduleTypes: seq<TypeDef>, resolve: Resolver) returns (objects: seq<ParsedClassMonoCecil>)
      requires forall t :: t in moduleTypes && IsCecilClass(t) ==> Extractable(resolve, t)
      ensures |objects| == |CecilClasses(moduleTypes)|
      ensures forall i :: 0 <= i < |objects| ==>
                objects[i].typeObj == CecilClasses(moduleTypes)[i] && objects[i].Extracted(resolve)
    {
      objects := [];
      for k := 0 to |moduleTypes|
        invariant |objects| == |CecilClasses(moduleTypes[..k])|
        invariant forall i :: 0 <= i < |objects| ==>
                    objects[i].typeObj == CecilClasses(moduleTypes[..k])[i] && objects[i].Extracted(resolve)
      {
        var t := moduleTypes[k];
        ghost var before := CecilClasses(moduleTypes[..k]);
        assert moduleTypes[..k + 1] == moduleTypes[..k] + [t];
        FilterSnoc(moduleTypes[..k], t, IsCecilClass);
        assert CecilClasses(moduleTypes[..k + 1]) == before + if IsCecilClass(t) then [t] else [];
        if t.namespace != "" {
          if StartsWith(t.namespace, "System") || StartsWith(t.namespace, "Microsoft") {
            continue;
          }
          if t.isClass && !t.isValueType {
            assert t in moduleTypes && IsCecilClass(t);
            var classObj := new ParsedClassMonoCecil(t, resolve);
            objects := objects + [classObj];
          } else if t.isInterface {
            // interfaces are ignored
          }
        }
      }
      assert moduleTypes[..|moduleTypes|] == moduleTypes;
    }
  }
}
