/** `Getter`: one comparable attribute of a composite type, read either from a
    public final field (`FieldBasedGetter`) or by calling a public method
    (`MethodBasedGetter`). A getter is the member together with the type it was
    obtained from; datatype equality is therefore the source's `equals`, by
    (member, type token), with the two kinds never equal to each other. */
module Getter {
  import opened Wrappers
  import opened Types
  import opened Values
  import opened Errors

  datatype Getter =
    | FieldGetter(field: FieldInfo, typeToken: TD)
    | MethodGetter(meth: MethodInfo, typeToken: TD)

  /** `name()`: the field or method name. */
  function Name(g: Getter): string
  {
    match g
    case FieldGetter(f, _) => f.name
    case MethodGetter(m, _) => m.name
  }

  /** `declaringClass()`. */
  function DeclaringClass(g: Getter): string
  {
    match g
    case FieldGetter(f, _) => f.declaringClass
    case MethodGetter(m, _) => m.declaringClass
  }

  /** `type()`: the member's declared type resolved against the type token. */
  function Type(g: Getter): TD
  {
    match g
    case FieldGetter(f, tt) => Resolve(tt, f.fieldType)
    case MethodGetter(m, tt) => Resolve(tt, m.returnType)
  }

  /** Which slot of an object the getter reads: a field by its declaring class, a
      method by name (calls dispatch on the runtime object). */
  function AccessOf(g: Getter): Access
  {
    match g
    case FieldGetter(f, _) => FieldRead(f.declaringClass, f.name)
    case MethodGetter(m, _) => Call(m.name)
  }

  /** `get(x)`: the attribute's value, or AccessorFailure where the accessor throws
      (including when x is not an object that has the attribute, where
      `Method.invoke`/`Field.get` reject the receiver). */
  function Get(g: Getter, x: Value): (r: Result<Value, Error>)
    ensures r.Ok? <==> x.Obj? && SlotIndex(x.slots, AccessOf(g)).Some?
                       && x.slots[SlotIndex(x.slots, AccessOf(g)).value].read.Returned?
    ensures r.Ok? ==> r.value == x.slots[SlotIndex(x.slots, AccessOf(g)).value].read.value
    ensures r.Err? ==> r.error == AccessorFailure(DeclaringClass(g), Name(g))
  {
    if !x.Obj? then Err(AccessorFailure(DeclaringClass(g), Name(g)))
    else match SlotIndex(x.slots, AccessOf(g))
      case None => Err(AccessorFailure(DeclaringClass(g), Name(g)))
      case Some(k) =>
        match x.slots[k].read
        case Returned(v) => Ok(v)
        case Threw => Err(AccessorFailure(DeclaringClass(g), Name(g)))
  }

  /** Getter identity is (kind, member, type token) and nothing else: two getters
      for the same member obtained from different type tokens differ. */
  lemma GetterIdentity(g1: Getter, g2: Getter)
    ensures g1 == g2 <==>
      (g1.FieldGetter? && g2.FieldGetter? && g1.field == g2.field && g1.typeToken == g2.typeToken) ||
      (g1.MethodGetter? && g2.MethodGetter? && g1.meth == g2.meth && g1.typeToken == g2.typeToken)
  {
  }
}
