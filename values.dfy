/** Runtime values as finite trees. Every non-null value carries a reference
    number for Java's `==`; what `equals` does on values is not fixed here (the
    engine receives it as a parameter). */
module Values {
  import opened Wrappers

  datatype Value =
    | Null
    /** A value compared by `equals` (a number, string, enum constant, date...). */
    | Leaf(ref: nat, repr: string)
    /** A reference array (`Object[]`). */
    | Arr(ref: nat, elems: seq<Value>)
    /** `java.util.Optional`. */
    | Opt(ref: nat, content: Option<Value>)
    /** A `java.util.Set`, in its iteration order. */
    | SetV(ref: nat, elems: seq<Value>)
    /** A `java.util.Map`, as its entries in iteration order (distinct keys). */
    | MapV(ref: nat, entries: seq<Entry>)
    /** A `java.util.List` or any other collection or iterable that is not a set. */
    | ListV(ref: nat, elems: seq<Value>)
    /** A composite object: what each of its accessors yields. */
    | Obj(ref: nat, slots: seq<Slot>)

  datatype Entry = Entry(key: Value, value: Value)

  /** How an attribute is reached: a field (fields are not virtual, so by declaring
      class and name) or a zero-argument method (virtual, so by name). */
  datatype Access = FieldRead(declaringClass: string, name: string) | Call(name: string)

  /** The outcome of reading one attribute: a value, or the accessor threw. */
  datatype Read = Returned(value: Value) | Threw

  datatype Slot = Slot(access: Access, read: Read)

  /** The object's own equality, `Object.equals` as the runtime classes define it. */
  type Equality = (Value, Value) -> bool

  /** Java's `x == y`. */
  predicate Identical(x: Value, y: Value)
  {
    (x.Null? && y.Null?) || (!x.Null? && !y.Null? && x.ref == y.ref)
  }

  /** The elements of an array, list or set, in iteration order. */
  function Elements(x: Value): seq<Value>
    requires x.Arr? || x.ListV? || x.SetV?
  {
    match x
    case Arr(_, es) => es
    case ListV(_, es) => es
    case SetV(_, es) => es
  }

  /** How a hash-based set or map matches a probe against a stored element:
      the same reference, or a non-null probe whose `equals` accepts it. */
  predicate Matches(eq: Equality, probe: Value, stored: Value)
  {
    Identical(probe, stored) || (!probe.Null? && eq(probe, stored))
  }

  /** Some stored element matches the probe. */
  predicate Member(eq: Equality, probe: Value, es: seq<Value>)
  {
    exists j :: 0 <= j < |es| && Matches(eq, probe, es[j])
  }

  /** `Set.contains`. */
  function Contains(eq: Equality, es: seq<Value>, probe: Value): (b: bool)
    ensures b <==> Member(eq, probe, es)
  {
    if es == [] then false
    else Matches(eq, probe, es[0]) || Contains(eq, es[1..], probe)
  }

  /** The position of the entry `Map.containsKey`/`Map.get` find for a key. */
  function KeyIndex(eq: Equality, es: seq<Entry>, key: Value): (r: Option<nat>)
    ensures r.Some? ==> r.value < |es| && Matches(eq, key, es[r.value].key)
    ensures r.Some? ==> forall j :: 0 <= j < r.value ==> !Matches(eq, key, es[j].key)
    ensures r.None? <==> forall j :: 0 <= j < |es| ==> !Matches(eq, key, es[j].key)
  {
    if es == [] then None
    else if Matches(eq, key, es[0].key) then Some(0)
    else match KeyIndex(eq, es[1..], key)
      case None => None
      case Some(k) => Some(k + 1)
  }

  /** The slot an accessor reads. */
  function SlotIndex(ss: seq<Slot>, a: Access): (r: Option<nat>)
    ensures r.Some? ==> r.value < |ss| && ss[r.value].access == a
    ensures r.None? <==> forall j :: 0 <= j < |ss| ==> ss[j].access != a
  {
    if ss == [] then None
    else if ss[0].access == a then Some(0)
    else match SlotIndex(ss[1..], a)
      case None => None
      case Some(k) => Some(k + 1)
  }
}
