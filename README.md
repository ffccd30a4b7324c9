# Class-relationship extraction, modelled in Dafny

This project models the analysis core of an assembly analyzer. The analyzer
reads a compiled .NET assembly and rebuilds its class diagram. It covers two
source files.

- **`ParsedClassMonoCecil`**: the object built for one type definition. Its
  constructor does the following, in order:
  - splits the type's methods into constructors and ordinary methods;
  - resolves the parent class;
  - removes from the type's interfaces those the parent lists (the source
    writes this with LINQ `Except`; see "## Findings");
  - drops every interface that another kept interface extends;
  - fills four relationship lists: using, inheritance, aggregation and
    composition.

  Aggregation and composition come from two CIL opcodes in method bodies:
  - `newobj` in ordinary methods gives aggregation (section 4.21 of ECMA-335
    Partition III);
  - `stfld` in constructors gives composition (section 4.28 of ECMA-335
    Partition III).

  `GetFunctionParameters` maps each ordinary method to its parameter list.
  Its fields are `private readonly` (`ParsedClassMonoCecil.cs:14-24`). Only
  the constructor fills them, so the model declares them `const`.
- **`ParsedDLLFile`**: the object built for one assembly. Its constructor
  makes two passes.
  - The Reflection pass filters `System.Type`s by namespace. It sorts the
    rest into parsed classes and parsed interfaces, and ignores enums.
  - The Mono.Cecil pass filters the main module's type definitions by a
    different namespace rule. It builds a `ParsedClassMonoCecil` for every
    non-value class.

  Its three lists are public mutable fields (`ParsedDLLFile.cs:15-19`). The
  model declares them `const`; see "## Left out".

Files and modules:

| file | module | contents |
|---|---|---|
| `metadata.dfy` | `Metadata` | the assembly metadata the analyzer reads, as values; resolution is a map from type reference to definition |
| `seqs.dfy` | `Seqs` | order-keeping filter, subsequence, LINQ `Except`, and their lemmas |
| `relations.dfy` | `Relations` | each pass of the class constructor as a function of the metadata, the properties of those functions, worked cases, and the as-written `GetType()` model |
| `parsed_class.dfy` | `ClassParsing` | class `ParsedClassMonoCecil`: the constructor and one loop method per pass, each proved to compute its `Relations` function |
| `dll_parsing.dfy` | `DllParsing` | class `ParsedDLLFile`: the two namespace filters and the two type loops |

Relationship entries are `TypeRef`s, the referenced program types. Every
`Add` in the source records `X.GetType()` instead, which is the runtime class
of the Cecil wrapper object (`ParsedClassMonoCecil.cs:104, 124, 129, 147, 170,
179`). The model departs from that on purpose; see "## Findings".

Resolution and inputs:
- `TypeReference.Resolve()` becomes the `Resolver` map, passed as a parameter.
  A reference resolves exactly when it is a key of the map.
- Where the source dereferences a resolution that can fail, the constructor
  requires that it succeeds. There are three such places:
  - the interfaces at `ParsedClassMonoCecil.cs:69`;
  - the non-generic `newobj` operands at `:147`;
  - the non-value `stfld` field types at `:166-168`.
- Elsewhere a failed resolution is data:
  - a base type that does not resolve gives no parent;
  - a parameter type that does not resolve is not a class.
- The inheritance list comes from the interfaces only when the type has no
  parent (`ParsedClassMonoCecil.cs:123-130`). For a class, that happens only
  when `BaseType.Resolve()` fails, or for `System.Object` itself, which has no
  base type. Every other class resolves at least to `System.Object`, so its
  inheritance list is its base type alone.
- The file name, the Reflection type array and the Cecil module's type list
  are constructor parameters.

Facts about the code that the model keeps:
- **Self-reference.** The code excludes the type itself only in the
  ordinary-method using pass (`ParsedClassMonoCecil.cs:106`). A class that
  constructs or stores its own type aggregates or composes itself
  (`Relations.SelfReferenceIsNotExcluded`).
- **Constructor parameters.** A parameter is tested against the composition
  found so far, in this constructor and the earlier ones
  (`ParsedClassMonoCecil.cs:177-183`). A later constructor's store does not
  remove it (`Relations.LaterCompositionDoesNotRemoveUsing`).
- **Unresolvable operands.** They are not skipped. The code dereferences null
  at the three places listed above.
- **Namespace filter.** The code hard-codes two different prefix rules, one per
  pass (`ParsedDLLFile.cs:42, 92`).
- **Lists, not sets.** The code appends to lists, so duplicates are kept. The
  model uses sequences.

## Model

| member | source | states |
|---|---|---|
| `Relations.MethodPartition` | Analyzer/Parsing/ParsedClassMonoCecil.cs:37-47 | The constructor and ordinary-method lists add up to the method list as a multiset. A method is in the first exactly when `IsConstructor` holds and in the second exactly when it does not. Both keep declaration order. |
| `Relations.PartitionKeepsDistinct` | Analyzer/Parsing/ParsedClassMonoCecil.cs:37-47 | Distinct method definitions stay distinct in both lists, so the dictionary built from `_methods` never sees a key twice. |
| `ClassParsing.ParsedClassMonoCecil.SplitMethods` | Analyzer/Parsing/ParsedClassMonoCecil.cs:37-47 | The `foreach` over `type.Methods` yields exactly `Constructors` and `OrdinaryMethods` of the list. |
| `Seqs.ExceptMembership` | Analyzer/Parsing/ParsedClassMonoCecil.cs:61 | An element is in `a.Except(b)` exactly when it is in `a` and not in `b`. |
| `Seqs.ExceptNoDuplicates` | Analyzer/Parsing/ParsedClassMonoCecil.cs:61 | `Except` returns each element at most once. |
| `Seqs.ExceptDisjoint` | Analyzer/Parsing/ParsedClassMonoCecil.cs:61 | `a.Except(b)` is `a` itself when `a` is duplicate-free and shares no element with `b`. |
| `Relations.AsWrittenSubtractionRemovesNothing` | Analyzer/Parsing/ParsedClassMonoCecil.cs:55-62 | Say a type's interface objects are distinct and none of them is one of the parent's. Then the `Except` as written returns the type's whole list. |
| `Relations.InheritedInterfaceKeptAsWritten` | Analyzer/Parsing/ParsedClassMonoCecil.cs:55-62 | Take `Derived : Base, IFoo` where `Base : IFoo`. The `Except` as written keeps `IFoo`, and subtracting by name removes it. |
| `Relations.SubtractedInterfacesSpec` | Analyzer/Parsing/ParsedClassMonoCecil.cs:55-62 | The corrected pre-filter interface list has three cases. No interfaces gives an empty list. No parent gives the type's own list. Otherwise the list keeps the type's order and stays duplicate-free when the type's list is. It holds exactly the type's interfaces whose full name no interface of the parent has. |
| `Relations.ExtendedNamesSpec` | Analyzer/Parsing/ParsedClassMonoCecil.cs:65-73 | A name is in `removableInterfaceNames` exactly when some interface of the list resolves to a definition that declares an interface of that name. |
| `ClassParsing.ParsedClassMonoCecil.RemovableInterfaceNames` | Analyzer/Parsing/ParsedClassMonoCecil.cs:65-73 | The nested loop builds exactly `ExtendedNames` of the list. |
| `ClassParsing.ParsedClassMonoCecil.KeepInterfaces` | Analyzer/Parsing/ParsedClassMonoCecil.cs:75-85 | The second loop keeps, in order, exactly the interfaces whose full name is not removable. |
| `Relations.FinalInterfacesSpec` | Analyzer/Parsing/ParsedClassMonoCecil.cs:55-85 | A pre-filter interface is kept exactly when no pre-filter interface extends one with its full name. The kept list keeps order, and a type without interfaces keeps none. |
| `Relations.LoggerKeepsMostSpecificInterface` | Analyzer/Parsing/ParsedClassMonoCecil.cs:49-131 | A class `Logger : IDisposable, ILogger` with base `System.Object`, where `ILogger` extends `IDisposable`, keeps only `ILogger`. Its parent resolves, so its only inheritance entry is `System.Object`. |
| `ClassParsing.ParsedClassMonoCecil.GetFunctionParameters` | Analyzer/Parsing/ParsedClassMonoCecil.cs:202-215 | The dictionary's keys are exactly the ordinary methods. Each key maps to its own parameter list, in order. |
| `ClassParsing.ParsedClassMonoCecil.AppendUsedParameters` | Analyzer/Parsing/ParsedClassMonoCecil.cs:101-117 | The parameter loop for one dictionary entry appends, in order, exactly the parameters that are resolvable non-generic reference classes other than the type itself. It appends nothing for a constructor key. |
| `ClassParsing.ParsedClassMonoCecil.MethodParameterUsing` | Analyzer/Parsing/ParsedClassMonoCecil.cs:98-119 | The loop over the dictionary, in insertion order, yields exactly `MethodUsing` of the ordinary methods. The constructor branch is never taken. |
| `Relations.MethodUsingMembership` | Analyzer/Parsing/ParsedClassMonoCecil.cs:99-119 | A type is a using entry of the pass over a method list exactly when some non-constructor method there takes a parameter of that type, and the type is a resolvable non-generic reference class other than the type itself. |
| `Relations.MethodUsingSources` | Analyzer/Parsing/ParsedClassMonoCecil.cs:98-119 | The same characterisation for the type's own ordinary methods: entries come only from ordinary-method parameters that are non-generic reference classes other than the type. |
| `ClassParsing.ParsedClassMonoCecil.CollectInheritance` | Analyzer/Parsing/ParsedClassMonoCecil.cs:121-131 | With a parent, the inheritance list is exactly the base type. Without one, it has one entry per final interface, in order. The two never mix. |
| `Relations.NewobjTargetsMembership` | Analyzer/Parsing/ParsedClassMonoCecil.cs:140-149 | A type is collected from a body exactly when the body holds a `newobj` of it and it is not a generic instance. |
| `ClassParsing.ParsedClassMonoCecil.AppendNewobjTargets` | Analyzer/Parsing/ParsedClassMonoCecil.cs:140-149 | The instruction loop appends exactly `NewobjTargets` of the body. |
| `ClassParsing.ParsedClassMonoCecil.CollectAggregation` | Analyzer/Parsing/ParsedClassMonoCecil.cs:136-151 | The loop over `_methods` yields exactly `Aggregation` of the ordinary methods. Methods without a body add nothing. |
| `Relations.AggregationMembership` | Analyzer/Parsing/ParsedClassMonoCecil.cs:136-151 | A type is an aggregation entry of a method list exactly when some method there constructs it with `newobj` and it is not generic. |
| `Relations.AggregationSources` | Analyzer/Parsing/ParsedClassMonoCecil.cs:136-151 | Aggregation entries come only from `newobj` in non-constructor methods of the type. Constructors contribute nothing. |
| `Relations.StoredFieldTypesMembership` | Analyzer/Parsing/ParsedClassMonoCecil.cs:160-173 | A field type is collected from a constructor body exactly when the body stores into it with `stfld`, and it is not a value type and resolves to a non-generic class. |
| `ClassParsing.ParsedClassMonoCecil.AppendFieldStores` | Analyzer/Parsing/ParsedClassMonoCecil.cs:158-174 | The instruction loop appends exactly `StoredFieldTypes` of the body. |
| `Relations.CompositionMembership` | Analyzer/Parsing/ParsedClassMonoCecil.cs:155-174 | A type is a composition entry of a constructor list exactly when one of them stores into a field of that qualifying type. |
| `Relations.CompositionSources` | Analyzer/Parsing/ParsedClassMonoCecil.cs:155-174 | Composition entries come only from `stfld` in constructors of the type. |
| `ClassParsing.ParsedClassMonoCecil.AppendUncomposedParameters` | Analyzer/Parsing/ParsedClassMonoCecil.cs:177-184 | One constructor's parameter loop appends, in order, exactly its parameters that are resolvable non-generic reference classes missing from the composition list as it stands. |
| `Relations.ConstructorUsingSources` | Analyzer/Parsing/ParsedClassMonoCecil.cs:177-183 | A type is a using entry of the constructor loop exactly when some constructor k takes it as a parameter, it is a resolvable non-generic reference class, and constructors 0..k do not compose it. |
| `Relations.UsingSources` | Analyzer/Parsing/ParsedClassMonoCecil.cs:98-183 | A type is in the whole using list exactly when one of two things holds. Either an ordinary method takes it and it is not the type itself, or a constructor takes it before composing it. Every entry is a resolvable non-generic class that is not a value type. |
| `ClassParsing.ParsedClassMonoCecil.ScanConstructor` | Analyzer/Parsing/ParsedClassMonoCecil.cs:157-183 | One constructor's iteration first appends its stored field types to the composition list. It then appends its parameters that are missing from the updated list. |
| `ClassParsing.ParsedClassMonoCecil.CollectComposition` | Analyzer/Parsing/ParsedClassMonoCecil.cs:155-198 | The constructor loop yields exactly `Composition` of the constructors. It appends exactly `ConstructorUsing` of them to the using list it is given. |
| `Relations.CarComposesWheel` | Analyzer/Parsing/ParsedClassMonoCecil.cs:121-184 | Take a class `Car` with base `System.Object` and constructor `Car(Wheel w)` that stores into a `Wheel` field. It composes `Wheel`, has no using or aggregation entry, and has `System.Object` as its only inheritance entry. |
| `Relations.LaterCompositionDoesNotRemoveUsing` | Analyzer/Parsing/ParsedClassMonoCecil.cs:155-184 | A `Wheel` parameter of a first constructor is a using entry. A second constructor that stores a `Wheel` field still makes `Wheel` a composition entry too. |
| `Relations.SelfReferenceIsNotExcluded` | Analyzer/Parsing/ParsedClassMonoCecil.cs:104-170 | A class that constructs its own type in a method aggregates itself. One that stores its own type in a constructor composes itself. Only the ordinary-method using pass drops the type itself. |
| `ClassParsing.ParsedClassMonoCecil.constructor` | Analyzer/Parsing/ParsedClassMonoCecil.cs:27-200 | Every field holds what its pass computes from the type definition: `Extracted`. |
| `Relations.AsWrittenUsingCollapses` | Analyzer/Parsing/ParsedClassMonoCecil.cs:101-117 | As written, every parameter of every ordinary method passes the using test, and every entry is the same `ParameterDefinition` class. |
| `Relations.AsWrittenUsingLosesTypes` | Analyzer/Parsing/ParsedClassMonoCecil.cs:104-106 | Take `Drive(int, Wheel, Engine)`, where Cecil reports `int` as a class that is a value type. The code as written records three equal entries. The referenced-type model records `Wheel` and `Engine`. |
| `Relations.AsWrittenStoredFieldTypesShape` | Analyzer/Parsing/ParsedClassMonoCecil.cs:160-173 | As written, one constructor body contributes as many composition entries as qualifying stores, and every one is the `TypeDefinition` class. |
| `Relations.AsWrittenCompositionShape` | Analyzer/Parsing/ParsedClassMonoCecil.cs:155-174 | As written, the composition list of any constructors is as long as the referenced-type one, and holds only the `TypeDefinition` class. |
| `Relations.AsWrittenParametersNeverComposed` | Analyzer/Parsing/ParsedClassMonoCecil.cs:177-183 | Against any list without `ParameterDefinition`, every parameter passes the test as written, and each gives a `ParameterDefinition` entry. |
| `Relations.AsWrittenConstructorParametersAllUsed` | Analyzer/Parsing/ParsedClassMonoCecil.cs:155-183 | For any constructors and parameter list, the test as written runs against the as-written composition list and never rejects a parameter. Every constructor parameter, value types included, becomes the same using entry. |
| `DllParsing.ParsedDLLFile.ReflectionPass` | Analyzer/Parsing/ParsedDLLFile.cs:37-74 | The Reflection loop yields exactly `ReflectionClasses` and `ReflectionInterfaces` of the type array. |
| `DllParsing.ReflectionClassesSpec` | Analyzer/Parsing/ParsedDLLFile.cs:39-54 | A type gets a `ParsedClass` exactly when it has a namespace outside `System.`, `Microsoft.` and `Mono.` and it is a class that is not a value type. |
| `DllParsing.ReflectionInterfacesSpec` | Analyzer/Parsing/ParsedDLLFile.cs:39-59 | A type gets a `ParsedInterface` exactly when it has an in-scope namespace and it is an interface that is not a class. |
| `DllParsing.ReflectionKindsExclusive` | Analyzer/Parsing/ParsedDLLFile.cs:39-73 | No type lands in both lists. A skipped type, an enum and any other kind land in neither. |
| `DllParsing.ReflectionOrder` | Analyzer/Parsing/ParsedDLLFile.cs:37-59 | Both Reflection lists keep the enumeration order of the types. |
| `DllParsing.ParsedDLLFile.CecilPass` | Analyzer/Parsing/ParsedDLLFile.cs:88-111 | The Cecil loop creates one `ParsedClassMonoCecil` per in-scope non-value class, in module order. Each holds its definition and is `Extracted`. |
| `DllParsing.CecilClassesSpec` | Analyzer/Parsing/ParsedDLLFile.cs:88-101 | A definition gets an object exactly when its namespace is non-empty and starts with neither `System` nor `Microsoft`, and it is a class that is not a value type. The list is a subsequence of the module's types. |
| `DllParsing.CecilScopeAgainstReflection` | Analyzer/Parsing/ParsedDLLFile.cs:42-92 | For a namespace the Cecil pass keeps, the Reflection pass drops it exactly when it starts with `Mono.`. |
| `DllParsing.FiltersDisagree` | Analyzer/Parsing/ParsedDLLFile.cs:42-92 | Only the Reflection pass drops `Mono.Foo`. Only the Cecil pass drops `System` and `SystemX`. |
| `DllParsing.ParsedDLLFile.constructor` | Analyzer/Parsing/ParsedDLLFile.cs:25-119 | `classObjList` and `interfaceObjList` are the Reflection pass's lists. Entry i of `classObjListMC` is an extracted object for the i-th in-scope Cecil class. |

## Left out

- File and library calls take no part: `Path.GetFileName`, `Assembly.Load(File.ReadAllBytes(...))`, `AssemblyDefinition.ReadAssembly` and `Dispose` (`ParsedDLLFile.cs:28-31, 79, 113`). The file name and both type enumerations are parameters. A null assembly, assembly definition or main module behaves as an empty enumeration.
- `Content/Model/ContentServer.cs` is not part of this model. It is network I/O, a lock-guarded session table and background uploads.
- The bodies of `ParsedClass` and `ParsedInterface` are not part of this model. They are opaque records that wrap the `System.Type`.
- Mono.Cecil's internals become data:
  - `Resolve()` is the `Resolver` map;
  - opcodes are the `Instruction` datatype;
  - the identity that LINQ `Except` uses on `InterfaceImplementation` objects is the `handle` field. That `Except` appears only in the as-written half of the third row of "## Findings".
  - a method definition's identity is its `token`.
- `TypeDefinition.IsGenericInstance` (`ParsedClassMonoCecil.cs:168`) is always false in Cecil. The model keeps it as a flag of the definition.
- The `inst != null` tests (`ParsedClassMonoCecil.cs:142, 163`) and the `_methods != null` test (`:206`) always hold, so the model has no null instructions or method lists.
- Dictionary enumeration order is taken to be insertion order. `Dictionary` does not document this, though it holds when nothing is removed.
- `String.StartsWith` is modelled as an ordinal prefix test. The culture-sensitive comparison the source uses is not modelled.
- The public getters `TypeObj`, `Name` and `Constructors` (`ParsedClassMonoCecil.cs:217-230`) are not modelled. The Dafny fields are readable directly.
- The commented-out local-variable idea (`ParsedClassMonoCecil.cs:187-196`) is not behaviour, so it is not modelled.
- ClassParsing.ParsedClassMonoCecil.constructor: it requires three things of its input.
  - Each method definition appears once. Cecil never lists one twice, and `Dictionary.Add` would throw.
  - The three resolutions the source dereferences succeed. The model does not include the null-reference exception.
  - Every field is computed before the object is published, so the order of field assignments is not modelled. No field is read before it is set, except `_methods`, which `GetFunctionParameters` receives as an argument.
- ClassParsing.ParsedClassMonoCecil.GetFunctionParameters: the model takes the method list as a parameter instead of reading the `_methods` field.
- DllParsing.ParsedDLLFile.constructor: the Cecil objects are described by their definition and their `Extracted` state. Their identity and freshness are not stated.
- The three lists of `ParsedDLLFile` are public mutable fields (`ParsedDLLFile.cs:15-19`), but the model declares them `const`. It leaves out any change that code outside the constructor could make to them, and the aliasing of the list objects.
- The parent subtraction removes interfaces by full name and does not deduplicate the rest. A type's interface list holds each interface once, since section 22.23 of ECMA-335 Partition II forbids duplicate InterfaceImpl rows.

## Findings

| source | as written | input that shows it | evidently intended | confidence | as-written member | corrected member |
|---|---|---|---|---|---|---|
| Analyzer/Parsing/ParsedClassMonoCecil.cs:104-115 | `argument.GetType()` is the class of the parameter object, so every parameter passes the `IsClass` and self test and gives the same entry | an ordinary method `Drive(int speed, Wheel w, Engine e)` gives three `ParameterDefinition` entries | record each parameter's referenced type when it is a non-generic reference class other than the type itself | high, not executed | `Relations.AsWrittenUsingLosesTypes` | `Relations.MethodUsingSources` |
| Analyzer/Parsing/ParsedClassMonoCecil.cs:170-182 | composition entries are `classType.Resolve().GetType()` and parameter entries are `parameter.Resolve().GetType()`, so the "not yet composed" test never rejects a parameter | a constructor `Car(Wheel w) { this.wheel = w; }` makes `Wheel` both composed and used | a stored field's type is composed, and a constructor parameter of that type is not also a using entry | high, not executed | `Relations.AsWrittenConstructorParametersAllUsed` | `Relations.ConstructorUsingSources` |
| Analyzer/Parsing/ParsedClassMonoCecil.cs:61 | `type.Interfaces.Except(_parentClass.Interfaces)` compares `InterfaceImplementation` objects by identity, and each type owns its own, so nothing is removed | `class Derived : Base, IFoo` with `class Base : IFoo` keeps `IFoo` in `Derived`'s list | drop the interfaces whose full name the parent lists | high, not executed | `Relations.InheritedInterfaceKeptAsWritten` | `Relations.SubtractedInterfacesSpec` |
