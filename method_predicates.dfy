/** `MethodPredicates`: ready-made ignore predicates selecting methods by name,
    either on every compared type or only on one (MethodPredicates.java:13-36).
    The scoped form compares the compared type with the given type descriptor. */
module MethodPredicates {
  import opened Wrappers
  import opened Types
  import opened Errors
  import opened Options
  import MethodBasedGetter

  function NameSet(first: string, rest: seq<string>): (r: set<string>)
    ensures forall n :: n in r <==> n == first || n in rest
  {
    {first} + set n | n in rest
  }

  /** `methods(first, rest...)`: holds of any method whose name is one of the names. */
  function Methods(first: string, rest: seq<string>): (p: MethodFilter)
    ensures forall tt, m :: p(tt, m) <==> m.name == first || m.name in rest
  {
    var names := NameSet(first, rest);
    (tt: TD, m: MethodInfo) => m.name in names
  }

  /** `Class.getMethod(n)` succeeds: a public method with that name and no
      parameters exists on the raw type. */
  predicate HasGetMethod(table: ClassTable, c: TD, n: string)
  {
    exists m :: m in ClassOf(table, c).methods && m.isPublic && m.name == n && m.paramCount == 0
  }

  /** `ensureGetMethods(c, names)`: the first name without such a method is
      reported; the names are checked first, then the rest in order. */
  function EnsureGetMethods(table: ClassTable, c: TD, ns: seq<string>): (r: Option<Error>)
    ensures r.None? <==> forall k :: 0 <= k < |ns| ==> HasGetMethod(table, c, ns[k])
    ensures r.Some? ==> exists k :: 0 <= k < |ns| && r.value == UnknownMethodName(ns[k])
                          && !HasGetMethod(table, c, ns[k])
                          && forall j :: 0 <= j < k ==> HasGetMethod(table, c, ns[j])
  {
    if ns == [] then None
    else if !HasGetMethod(table, c, ns[0]) then Some(UnknownMethodName(ns[0]))
    else
      var r := EnsureGetMethods(table, c, ns[1..]);
      if r.Some? then
        var k :| 0 <= k < |ns| - 1 && r.value == UnknownMethodName(ns[1..][k])
          && !HasGetMethod(table, c, ns[1..][k])
          && forall j :: 0 <= j < k ==> HasGetMethod(table, c, ns[1..][j]);
        assert forall j :: 0 <= j < k + 1 ==> HasGetMethod(table, c, ns[j]) by {
          forall j | 0 <= j < k + 1 ensures HasGetMethod(table, c, ns[j]) {
            if j > 0 { assert ns[j] == ns[1..][j - 1]; }
          }
        }
        assert ns[k + 1] == ns[1..][k];
        r
      else
        assert forall k :: 0 <= k < |ns| ==> HasGetMethod(table, c, ns[k]) by {
          forall k | 0 <= k < |ns| ensures HasGetMethod(table, c, ns[k]) {
            if k > 0 { assert ns[k] == ns[1..][k - 1]; }
          }
        }
        r
  }

  /** `methods(ignored, first, rest...)`: fails with the first unknown name;
      otherwise holds exactly of the named methods when the compared type is the
      given one. */
  function MethodsOn(table: ClassTable, scope: TD, first: string, rest: seq<string>): (r: Result<MethodFilter, Error>)
    ensures r.Ok? <==> HasGetMethod(table, scope, first) && forall k :: 0 <= k < |rest| ==> HasGetMethod(table, scope, rest[k])
    ensures !HasGetMethod(table, scope, first) ==> r == Err(UnknownMethodName(first))
    ensures r.Err? && HasGetMethod(table, scope, first) ==>
      exists k :: 0 <= k < |rest| && r.error == UnknownMethodName(rest[k]) && !HasGetMethod(table, scope, rest[k])
    ensures r.Ok? ==> forall tt, m :: r.value(tt, m) <==> tt == scope && (m.name == first || m.name in rest)
  {
    var names := NameSet(first, rest);
    match EnsureGetMethods(table, scope, [first] + rest)
    case Some(e) =>
      assert forall k :: 0 <= k < |rest| ==> rest[k] == ([first] + rest)[k + 1];
      Err(e)
    case None =>
      assert forall k :: 0 <= k < |rest| ==> rest[k] == ([first] + rest)[k + 1];
      assert first == ([first] + rest)[0];
      Ok((compared: TD, m: MethodInfo) => compared == scope && m.name in names)
  }

  /** Naming two methods in one predicate ignores the same methods as two
      predicates naming one each. */
  lemma OneFilterOrTwo(tt: TD, m: MethodInfo, a: string, b: string)
    ensures MethodBasedGetter.IgnoredOn([Methods(a, [b])], tt, m) <==>
            MethodBasedGetter.IgnoredOn([Methods(a, []), Methods(b, [])], tt, m)
  {
    var one := [Methods(a, [b])];
    var two := [Methods(a, []), Methods(b, [])];
    if MethodBasedGetter.IgnoredOn(two, tt, m) {
      var i :| 0 <= i < 2 && two[i](tt, m);
      assert one[0](tt, m);
    }
    if MethodBasedGetter.IgnoredOn(one, tt, m) {
      if m.name == a { assert two[0](tt, m); } else { assert two[1](tt, m); }
    }
  }

  /** The same for the scoped form. */
  lemma OneScopedFilterOrTwo(table: ClassTable, scope: TD, tt: TD, m: MethodInfo, a: string, b: string)
    requires MethodsOn(table, scope, a, [b]).Ok?
    ensures MethodsOn(table, scope, a, []).Ok? && MethodsOn(table, scope, b, []).Ok?
    ensures MethodBasedGetter.IgnoredOn([MethodsOn(table, scope, a, [b]).value], tt, m) <==>
            MethodBasedGetter.IgnoredOn([MethodsOn(table, scope, a, []).value, MethodsOn(table, scope, b, []).value], tt, m)
  {
    assert [b][0] == b;
    var one := [MethodsOn(table, scope, a, [b]).value];
    var two := [MethodsOn(table, scope, a, []).value, MethodsOn(table, scope, b, []).value];
    if MethodBasedGetter.IgnoredOn(two, tt, m) {
      var i :| 0 <= i < 2 && two[i](tt, m);
      assert one[0](tt, m);
    }
    if MethodBasedGetter.IgnoredOn(one, tt, m) {
      if m.name == a { assert two[0](tt, m); } else { assert two[1](tt, m); }
    }
  }

  /** A scoped predicate does not apply to any other compared type, a subclass
      included. */
  lemma ScopedFilterIgnoresNothingElsewhere(table: ClassTable, scope: TD, first: string, rest: seq<string>, tt: TD, m: MethodInfo)
    requires MethodsOn(table, scope, first, rest).Ok?
    requires tt != scope
    ensures !MethodsOn(table, scope, first, rest).value(tt, m)
  {
  }
}
