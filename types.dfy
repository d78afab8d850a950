/** Type descriptors (the role Guava's TypeToken plays in the source) and the
    class table that stands in for Java reflection (Class.getFields,
    Class.getMethods, Class.isEnum). */
module Types {
  import opened Wrappers

  /** A possibly generic type. Equality is structural: the same raw class and the
      same type arguments, so `Foo` and `Foo<String>` are different descriptors.
      `TypeVar(i)` is the i-th type parameter of the class that declares a member;
      it is what a member's declared type mentions before resolution. */
  datatype TD =
    | Class(raw: string, args: seq<TD>)
    | ArrayOf(component: TD)
    | TypeVar(index: nat)

  const ObjectClass := "java.lang.Object"
  const StringClass := "java.lang.String"
  const LocalDateClass := "java.time.LocalDate"
  const LocalTimeClass := "java.time.LocalTime"
  const LocalDateTimeClass := "java.time.LocalDateTime"
  const OptionalClass := "java.util.Optional"
  const SetClass := "java.util.Set"
  const MapClass := "java.util.Map"
  const ListClass := "java.util.List"
  const CollectionClass := "java.util.Collection"
  const IterableClass := "java.lang.Iterable"

  /** The classes for which `Class.isPrimitive()` holds. */
  const Primitives: set<string> :=
    {"boolean", "byte", "char", "short", "int", "long", "float", "double", "void"}

  /** The classes other than primitives and enums that the engine compares with
      `equals` (DeepEquals.java:442-448). */
  const ValueClasses: set<string> :=
    {StringClass, LocalDateClass, LocalTimeClass, LocalDateTimeClass, ObjectClass}

  /** `TypeToken.unwrap()`: a wrapper class becomes its primitive, anything else is
      left as it is. */
  function Unwrap(raw: string): (r: string)
    ensures r != raw ==> r in Primitives
  {
    match raw
    case "java.lang.Boolean" => "boolean"
    case "java.lang.Byte" => "byte"
    case "java.lang.Character" => "char"
    case "java.lang.Short" => "short"
    case "java.lang.Integer" => "int"
    case "java.lang.Long" => "long"
    case "java.lang.Float" => "float"
    case "java.lang.Double" => "double"
    case "java.lang.Void" => "void"
    case _ => raw
  }

  /** `getTypeArgToken(tt, i)`: the i-th actual type argument; None where the
      source's cast to ParameterizedType or its array index would fail. */
  function TypeArg(tt: TD, i: nat): (r: Option<TD>)
    ensures r.Some? <==> tt.Class? && i < |tt.args|
    ensures r.Some? ==> r.value == tt.args[i]
  {
    if tt.Class? && i < |tt.args| then Some(tt.args[i]) else None
  }

  /** `TypeToken.resolveType`: the declared type of a member of `owner`, with the
      declaring class's type variables replaced by `owner`'s type arguments. A
      variable that `owner` does not bind stays unresolved. */
  function Resolve(owner: TD, t: TD): TD
  {
    match t
    case TypeVar(i) => if owner.Class? && i < |owner.args| then owner.args[i] else t
    case ArrayOf(c) => ArrayOf(Resolve(owner, c))
    case Class(raw, args) => Class(raw, ResolveAll(owner, args))
  }

  function ResolveAll(owner: TD, ts: seq<TD>): (r: seq<TD>)
    ensures |r| == |ts|
  {
    if ts == [] then [] else [Resolve(owner, ts[0])] + ResolveAll(owner, ts[1..])
  }

  /** A field as `Class.getFields()` would show it: declared or inherited. */
  datatype FieldInfo = FieldInfo(
    declaringClass: string,
    name: string,
    isPublic: bool,
    isFinal: bool,
    fieldType: TD)

  /** A method as `Class.getMethods()` would show it: declared or inherited. */
  datatype MethodInfo = MethodInfo(
    declaringClass: string,
    name: string,
    isPublic: bool,
    isStatic: bool,
    isBridge: bool,
    isSynthetic: bool,
    paramCount: nat,
    returnsVoid: bool,
    returnType: TD)

  datatype ClassInfo = ClassInfo(isEnum: bool, fields: seq<FieldInfo>, methods: seq<MethodInfo>)

  /** What reflection knows about each raw class, by name. */
  type ClassTable = map<string, ClassInfo>

  const NoMembers := ClassInfo(false, [], [])

  /** The members of the raw type of `tt`. An array type or a type variable (taken
      as unbounded, so its raw type is Object) has no fields and, once the methods named like
      Object's are excluded, no methods to compare. */
  function ClassOf(table: ClassTable, tt: TD): ClassInfo
  {
    if tt.Class? && tt.raw in table then table[tt.raw] else NoMembers
  }

  /** `getRawType().getName()`, as used in the shape-error messages. */
  function RawName(tt: TD): string
  {
    match tt
    case Class(raw, _) => raw
    case ArrayOf(_) => "[]"
    case TypeVar(_) => ObjectClass
  }

  /** The key of a field-level override: `DeepEquals.Field`, the compared type
      together with an attribute name. */
  datatype FieldKey = FieldKey(owner: TD, fieldName: string)
}
