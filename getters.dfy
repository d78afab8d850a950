/** `Getters.getters`: the union of the field getters and the method getters of a
    type (Getters.java:15-19). The union keeps the field getters first and then
    each method getter not already present. */
module Getters {
  import opened Wrappers
  import opened Types
  import opened Errors
  import opened Options
  import opened Getter
  import FieldBasedGetter
  import MethodBasedGetter

  function Union(a: seq<Getter>, b: seq<Getter>): (r: seq<Getter>)
    ensures forall g :: g in r <==> g in a || g in b
    ensures |a| <= |r| && r[..|a|] == a
    decreases |b|
  {
    if b == [] then a
    else if b[0] in a then Union(a, b[1..])
    else
      var r := Union(a + [b[0]], b[1..]);
      assert r[..|a|] == (r[..|a| + 1])[..|a|];
      r
  }

  /** Without duplicates in either argument, the union has none. */
  lemma UnionDistinct(a: seq<Getter>, b: seq<Getter>)
    requires forall i, j :: 0 <= i < j < |a| ==> a[i] != a[j]
    requires forall i, j :: 0 <= i < j < |b| ==> b[i] != b[j]
    ensures var r := Union(a, b); forall i, j :: 0 <= i < j < |r| ==> r[i] != r[j]
    decreases |b|
  {
    if b != [] && b[0] !in a {
      var a' := a + [b[0]];
      assert forall i, j :: 0 <= i < j < |a'| ==> a'[i] != a'[j] by {
        forall i, j | 0 <= i < j < |a'| ensures a'[i] != a'[j] {
          if j == |a| { assert a'[i] in a; }
        }
      }
      assert forall i, j :: 0 <= i < j < |b[1..]| ==> b[1..][i] != b[1..][j] by {
        forall i, j | 0 <= i < j < |b[1..]| ensures b[1..][i] != b[1..][j] {
          assert b[1..][i] == b[i + 1] && b[1..][j] == b[j + 1];
        }
      }
      UnionDistinct(a', b[1..]);
    } else if b != [] {
      assert forall i, j :: 0 <= i < j < |b[1..]| ==> b[1..][i] != b[1..][j] by {
        forall i, j | 0 <= i < j < |b[1..]| ensures b[1..][i] != b[1..][j] {
          assert b[1..][i] == b[i + 1] && b[1..][j] == b[j + 1];
        }
      }
      UnionDistinct(a, b[1..]);
    }
  }

  /** `getters(tt, options)`: every public final field and every method to invoke;
      fails exactly when the method extraction fails, with its error. */
  function GettersOf(table: ClassTable, tt: TD, options: Options): (r: Result<seq<Getter>, Error>)
    ensures r.Ok? <==> MethodBasedGetter.MethodBasedGetters(table, tt, options).Ok?
    ensures r.Err? ==> r.error == MethodBasedGetter.MethodBasedGetters(table, tt, options).error
    ensures r.Ok? ==> forall g :: g in r.value <==>
      g in FieldBasedGetter.FieldBasedGetters(table, tt) ||
      g in MethodBasedGetter.MethodBasedGetters(table, tt, options).value
    ensures r.Ok? ==> forall g :: g in r.value ==> g.typeToken == tt
    ensures r.Err? ==> r.error.SyntheticMethod? || r.error.IllegalShape?
  {
    var fs := FieldBasedGetter.FieldBasedGetters(table, tt);
    match MethodBasedGetter.MethodBasedGetters(table, tt, options)
    case Err(e) => Err(e)
    case Ok(ms) => Ok(Union(fs, ms))
  }
}
