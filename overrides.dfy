/** User comparators (`DeepEquals.Comparator` and its two kinds) and the rule that
    registers them (`Stateful.override`, DeepEquals.java:181-191, 382-406): a
    second comparator for a type or a field already registered is refused, and
    the ones registered before the refusal stay. */
module Overrides {
  import opened Wrappers
  import opened Types
  import opened Values
  import opened Errors

  /** A user predicate over two non-null values. */
  type Pred = (Value, Value) -> bool

  datatype Comparator =
    | TypeComparator(typeToken: TD, pred: Pred)
    | FieldComparator(field: FieldKey, pred: Pred)

  /** `typeTokenComparators` and `fieldComparators`. */
  datatype Registry = Registry(types: map<TD, Pred>, fields: map<FieldKey, Pred>)

  const Empty := Registry(map[], map[])

  /** Whether the comparator's key is already taken. */
  predicate Taken(r: Registry, c: Comparator)
  {
    match c
    case TypeComparator(tt, _) => tt in r.types
    case FieldComparator(f, _) => f in r.fields
  }

  /** The error for registering a comparator whose key is taken. */
  function Duplicate(c: Comparator): Error
  {
    match c
    case TypeComparator(tt, _) => DuplicateTypeComparator(tt)
    case FieldComparator(f, _) => DuplicateFieldComparator(f)
  }

  /** `override(TypeTokenComparator)` / `override(FieldComparator)`. */
  function RegisterOne(r: Registry, c: Comparator): (res: Result<Registry, Error>)
    ensures Taken(r, c) <==> res.Err?
    ensures res.Err? ==> res.error == Duplicate(c)
    ensures res.Ok? && c.TypeComparator? ==>
      res.value == r.(types := r.types[c.typeToken := c.pred])
    ensures res.Ok? && c.FieldComparator? ==>
      res.value == r.(fields := r.fields[c.field := c.pred])
  {
    if Taken(r, c) then Err(Duplicate(c))
    else match c
      case TypeComparator(tt, p) => Ok(r.(types := r.types[tt := p]))
      case FieldComparator(f, p) => Ok(r.(fields := r.fields[f := p]))
  }

  /** The registry after `override(c0, c1, ...)`, and the error that stopped it. */
  datatype Registration = Registration(registry: Registry, error: Option<Error>)

  function RegisterAll(r: Registry, cs: seq<Comparator>): Registration
    decreases |cs|
  {
    if cs == [] then Registration(r, None)
    else match RegisterOne(r, cs[0])
      case Err(e) => Registration(r, Some(e))
      case Ok(r') => RegisterAll(r', cs[1..])
  }

  /** Two comparators with the same key. */
  predicate SameKey(a: Comparator, b: Comparator)
  {
    (a.TypeComparator? && b.TypeComparator? && a.typeToken == b.typeToken)
    || (a.FieldComparator? && b.FieldComparator? && a.field == b.field)
  }

  /** Registration never replaces a predicate, only adds. */
  lemma {:induction false} RegisterAllOnlyAdds(r: Registry, cs: seq<Comparator>)
    ensures var out := RegisterAll(r, cs).registry;
      && (forall t :: t in r.types ==> t in out.types && out.types[t] == r.types[t])
      && (forall f :: f in r.fields ==> f in out.fields && out.fields[f] == r.fields[f])
    decreases |cs|
  {
    if cs != [] && RegisterOne(r, cs[0]).Ok? {
      var r' := RegisterOne(r, cs[0]).value;
      assert RegisterAll(r, cs) == RegisterAll(r', cs[1..]);
      assert forall t :: t in r.types ==> t in r'.types && r'.types[t] == r.types[t];
      assert forall f :: f in r.fields ==> f in r'.fields && r'.fields[f] == r.fields[f];
      RegisterAllOnlyAdds(r', cs[1..]);
    }
  }

  /** Every comparator whose key is new and not repeated later in the list ends up
      registered under its key, and nothing is refused. */
  lemma {:induction false} RegisterAllFresh(r: Registry, cs: seq<Comparator>)
    requires forall i :: 0 <= i < |cs| ==> !Taken(r, cs[i])
    requires forall i, j :: 0 <= i < j < |cs| ==> !SameKey(cs[i], cs[j])
    ensures RegisterAll(r, cs).error.None?
    ensures forall i :: 0 <= i < |cs| ==> var out := RegisterAll(r, cs).registry;
      match cs[i]
      case TypeComparator(t, p) => t in out.types && out.types[t] == p
      case FieldComparator(f, p) => f in out.fields && out.fields[f] == p
    decreases |cs|
  {
    if cs != [] {
      var r' := RegisterOne(r, cs[0]).value;
      forall i | 0 <= i < |cs[1..]| ensures !Taken(r', cs[1..][i]) {
        assert cs[1..][i] == cs[i + 1];
        assert !SameKey(cs[0], cs[i + 1]);
      }
      forall i, j | 0 <= i < j < |cs[1..]| ensures !SameKey(cs[1..][i], cs[1..][j]) {
        assert cs[1..][i] == cs[i + 1] && cs[1..][j] == cs[j + 1];
      }
      RegisterAllFresh(r', cs[1..]);
      RegisterAllOnlyAdds(r', cs[1..]);
      forall i | 0 <= i < |cs| ensures var out := RegisterAll(r, cs).registry;
        match cs[i]
        case TypeComparator(t, p) => t in out.types && out.types[t] == p
        case FieldComparator(f, p) => f in out.fields && out.fields[f] == p
      {
        if i > 0 { assert cs[i] == cs[1..][i - 1]; }
      }
    }
  }

  /** A registration is refused at the first comparator whose key is taken in the
      registry built so far, whether it was taken before the call or by an earlier
      comparator of the same call; everything before it stays registered. */
  lemma {:induction false} RegisterAllStopsAtFirstDuplicate(r: Registry, cs: seq<Comparator>, k: nat)
    requires k < |cs|
    requires RegisterAll(r, cs[..k]).error.None?
    requires Taken(RegisterAll(r, cs[..k]).registry, cs[k])
    ensures RegisterAll(r, cs) == Registration(RegisterAll(r, cs[..k]).registry, Some(Duplicate(cs[k])))
    decreases k
  {
    if k == 0 {
      assert cs[..0] == [];
    } else {
      assert cs[..k][0] == cs[0] && cs[..k][1..] == cs[1..][..k - 1];
      var r' := RegisterOne(r, cs[0]).value;
      assert RegisterAll(r, cs[..k]) == RegisterAll(r', cs[1..][..k - 1]);
      assert cs[1..][k - 1] == cs[k];
      RegisterAllStopsAtFirstDuplicate(r', cs[1..], k - 1);
    }
  }

  /** After a registration that nothing refused, every comparator of the call has
      its key taken; so a later comparator with the same key stops the next one. */
  lemma {:induction false} RegisteredKeysAreTaken(r: Registry, cs: seq<Comparator>)
    requires RegisterAll(r, cs).error.None?
    ensures forall i :: 0 <= i < |cs| ==> Taken(RegisterAll(r, cs).registry, cs[i])
    decreases |cs|
  {
    if cs != [] {
      var r' := RegisterOne(r, cs[0]).value;
      RegisteredKeysAreTaken(r', cs[1..]);
      RegisterAllOnlyAdds(r', cs[1..]);
      forall i | 0 <= i < |cs| ensures Taken(RegisterAll(r, cs).registry, cs[i]) {
        if i > 0 { assert cs[i] == cs[1..][i - 1]; }
      }
    }
  }

  /** Registering the same comparator key twice in one call is always refused. */
  lemma RepeatedKeyIsRefused(r: Registry, c: Comparator, d: Comparator)
    requires SameKey(c, d) && !Taken(r, c)
    ensures RegisterAll(r, [c, d]) == Registration(RegisterOne(r, c).value, Some(Duplicate(d)))
  {
    assert [c, d][1..] == [d];
  }
}
