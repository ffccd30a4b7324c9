/**
 * The slice of assembly metadata that the relationship extractor reads, as
 * plain values.  A `TypeRef` is what Mono.Cecil calls a `TypeReference`, a
 * `TypeDef` a `TypeDefinition`; method bodies keep only the two CIL opcodes
 * the extractor interprets, `newobj` (section 4.21 of ECMA-335 Partition III)
 * and `stfld` (section 4.28 of ECMA-335 Partition III).
 */
module Metadata {

  datatype Option<+T> = None | Some(value: T)

  /** A reference to a type: a lookup key, never the definition itself. */
  datatype TypeRef = TypeRef(
    fullName: string,
    scope: string,            // the module or assembly the reference points into
    isValueType: bool,
    isGenericInstance: bool)

  /**
   * One entry of a type's `Interfaces` collection.  Cecil's
   * `InterfaceImplementation` has no equality of its own, so LINQ compares two
   * of them by object identity; `handle` is that identity.
   */
  datatype InterfaceImpl = InterfaceImpl(handle: nat, interfaceType: TypeRef)

  datatype FieldDef = FieldDef(name: string, fieldType: TypeRef)

  /** An instruction of a method body, reduced to what the extractor looks at. */
  datatype Instruction =
    | Newobj(declaringType: TypeRef)   // operand: the constructor's declaring type
    | Stfld(fieldType: TypeRef)        // operand: the stored field's declared type
    | Other

  /**
   * A method definition.  `token` is its metadata token, the identity that
   * makes two definitions of one type distinct; `body` is `None` when the
   * method has no body (abstract, extern).
   */
  datatype MethodDef = MethodDef(
    token: nat,
    name: string,
    isConstructor: bool,
    parameters: seq<TypeRef>,
    body: Option<seq<Instruction>>)

  datatype TypeDef = TypeDef(
    fullName: string,
    namespace: string,        // Cecil gives "" for the global namespace, never null
    isClass: bool,
    isInterface: bool,
    isValueType: bool,
    isGenericInstance: bool,
    baseType: Option<TypeRef>,
    interfaces: seq<InterfaceImpl>,
    fields: seq<FieldDef>,
    methods: seq<MethodDef>)

  /**
   * `TypeReference.Resolve()`: a reference resolves to a definition when it is
   * a key of the map, and resolves to null otherwise.
   */
  type Resolver = map<TypeRef, TypeDef>
}
