/** `FieldBasedGetter.fieldBasedGetters`: one getter per public final field of the
    raw type, inherited fields included (FieldBasedGetter.java:66-73). */
module FieldBasedGetter {
  import opened Types
  import opened Getter

  /** The fields `Class.getFields()` reports: the public ones. */
  function PublicFields(table: ClassTable, tt: TD): (r: seq<FieldInfo>)
    ensures forall f :: f in r <==> f in ClassOf(table, tt).fields && f.isPublic
  {
    KeepPublic(ClassOf(table, tt).fields)
  }

  function KeepPublic(fs: seq<FieldInfo>): (r: seq<FieldInfo>)
    ensures forall f :: f in r <==> f in fs && f.isPublic
  {
    if fs == [] then []
    else (if fs[0].isPublic then [fs[0]] else []) + KeepPublic(fs[1..])
  }

  function FinalGetters(fs: seq<FieldInfo>, tt: TD): (r: seq<Getter>)
    ensures forall g :: g in r <==> exists f :: f in fs && f.isFinal && g == FieldGetter(f, tt)
  {
    if fs == [] then []
    else (if fs[0].isFinal then [FieldGetter(fs[0], tt)] else []) + FinalGetters(fs[1..], tt)
  }

  function FieldBasedGetters(table: ClassTable, tt: TD): (r: seq<Getter>)
    ensures forall g :: g in r <==>
      exists f :: f in ClassOf(table, tt).fields && f.isPublic && f.isFinal && g == FieldGetter(f, tt)
    ensures forall g :: g in r ==> g.FieldGetter? && g.typeToken == tt
  {
    FinalGetters(PublicFields(table, tt), tt)
  }

  /** A non-final or non-public field yields no getter. */
  lemma NoGetterForMutableOrHiddenField(table: ClassTable, tt: TD, f: FieldInfo)
    requires !f.isFinal || !f.isPublic
    ensures FieldGetter(f, tt) !in FieldBasedGetters(table, tt)
  {
  }

  /** `name()` of a field getter is the field's name. */
  lemma FieldGetterName(table: ClassTable, tt: TD, g: Getter)
    requires g in FieldBasedGetters(table, tt)
    ensures Name(g) == g.field.name && g.field in ClassOf(table, tt).fields
  {
  }
}
