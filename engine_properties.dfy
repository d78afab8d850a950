/** What the comparison engine computes, stated against the engine's own
    definitions: the decisions taken before any recursion, the container rules,
    and the strict and order-lenient sequence algorithms. */
module EngineProperties {
  import opened Wrappers
  import opened Types
  import opened Values
  import opened Errors
  import opened ObjectPath
  import opened Engine
  import opened EngineFrame
  import opened EngineIndependence

  /** Exactly one null: false. Both null or the same reference: true. Both are
      decided before any comparator is consulted and change nothing. */
  lemma NullAndIdentity(c: Ctx, tt: TD, x: Value, y: Value, st: State)
    ensures x.Null? != y.Null? ==> Impl(c, tt, x, y, st) == Out(Ok(false), st)
    ensures Identical(x, y) ==> Impl(c, tt, x, y, st) == Out(Ok(true), st)
  {
  }

  /** A type comparator registered under exactly the declared type decides, with
      no recursion; a descriptor differing in any type argument is another key. */
  lemma TypeComparatorDecides(c: Ctx, tt: TD, x: Value, y: Value, st: State)
    requires x.Null? == y.Null? && !Identical(x, y)
    ensures tt in c.registry.types ==> Impl(c, tt, x, y, st) == Out(Ok(c.registry.types[tt](x, y)), st)
    ensures tt !in c.registry.types && ComparedWithEquals(c.table, tt) ==>
      Impl(c, tt, x, y, st) == Out(Ok(c.equals(x, y)), st)
  {
  }

  /** Primitives and their boxes, enums, String, the three java.time types, Object
      and every (unbounded) type variable are compared with equals; other types fall to the container branches
      by exact raw name, and anything else is a composite. */
  lemma ValueEqualityTypes(table: ClassTable, raw: string, args: seq<TD>, n: nat)
    ensures Unwrap(raw) in Primitives ==> KindOf(table, Class(raw, args)) == ByEquals
    ensures raw in ValueClasses ==> KindOf(table, Class(raw, args)) == ByEquals
    ensures raw in table && table[raw].isEnum ==> KindOf(table, Class(raw, args)) == ByEquals
    ensures KindOf(table, TypeVar(n)) == ByEquals
  {
  }

  /** A raw type that is none of the value types and none of the six container
      interfaces is compared as a composite, even when it implements one of them
      (an `ArrayList` declared as such, say). */
  lemma OtherTypesAreComposite(table: ClassTable, raw: string, args: seq<TD>)
    requires !ComparedWithEquals(table, Class(raw, args))
    requires raw !in {OptionalClass, SetClass, MapClass, ListClass, CollectionClass, IterableClass}
    ensures KindOf(table, Class(raw, args)) == CompositeKind
  {
  }

  /** The checks that come before the kind dispatch have not decided. */
  predicate Undecided(c: Ctx, tt: TD, x: Value, y: Value)
  {
    x.Null? == y.Null? && !Identical(x, y) && tt !in c.registry.types
  }

  /** `compareOptionals`: both empty is true, one empty is false, both present
      compares the contents at type argument 0. */
  lemma OptionalSemantics(c: Ctx, tt: TD, x: Value, y: Value, st: State)
    requires Undecided(c, tt, x, y) && KindOf(c.table, tt) == OptionalKind && x.Opt? && y.Opt?
    ensures x.content.None? && y.content.None? ==> Impl(c, tt, x, y, st) == Out(Ok(true), st)
    ensures x.content.None? != y.content.None? ==> Impl(c, tt, x, y, st) == Out(Ok(false), st)
    ensures x.content.Some? && y.content.Some? && |tt.args| > 0 ==>
      Impl(c, tt, x, y, st) == Impl(c, tt.args[0], x.content.value, y.content.value, st)
  {
  }

  /** `compareSets`: equal sizes and every element of x found in y by y's own
      membership test; no recursion and no change of state. */
  lemma SetSemantics(c: Ctx, tt: TD, x: Value, y: Value, st: State)
    requires Undecided(c, tt, x, y) && KindOf(c.table, tt) == SetKind && x.SetV? && y.SetV?
    ensures Impl(c, tt, x, y, st).st == st
    ensures Impl(c, tt, x, y, st).res == Ok(true) <==>
      |x.elems| == |y.elems| && forall i :: 0 <= i < |x.elems| ==> Member(c.equals, x.elems[i], y.elems)
    ensures Impl(c, tt, x, y, st).res.Ok?
  {
    assert Impl(c, tt, x, y, st) == Out(Ok(SetsEqual(c.equals, x.elems, y.elems)), st);
  }

  /** The entry of y that `mapy.get(k)` finds for the key of x's i-th entry. */
  predicate EntryMatches(c: Ctx, v: TD, x: Value, ys: seq<Entry>, k: nat, st: State)
    requires x.MapV? && k < |x.entries|
  {
    match KeyIndex(c.equals, ys, x.entries[k].key)
    case None => false
    case Some(j) => Impl(c, v, x.entries[k].value, ys[j].value, st).res == Ok(true)
  }

  lemma {:induction false} MapEntriesIff(c: Ctx, v: TD, x: Value, ys: seq<Entry>, i: nat, st: State)
    requires x.MapV? && i <= |x.entries|
    ensures MapEntries(c, v, x, ys, i, st).res == Ok(true) <==>
      forall k :: i <= k < |x.entries| ==> EntryMatches(c, v, x, ys, k, st)
    decreases |x.entries| - i
  {
    if i < |x.entries| {
      var e := x.entries[i];
      match KeyIndex(c.equals, ys, e.key)
      case None =>
        assert !EntryMatches(c, v, x, ys, i, st);
      case Some(j) =>
        var o := Impl(c, v, e.value, ys[j].value, st);
        assert EntryMatches(c, v, x, ys, i, st) <==> o.res == Ok(true);
        if o.res == Ok(true) {
          FrameImpl(c, v, e.value, ys[j].value, st);
          MapEntriesIff(c, v, x, ys, i + 1, o.st);
          forall k | i + 1 <= k < |x.entries|
            ensures EntryMatches(c, v, x, ys, k, o.st) == EntryMatches(c, v, x, ys, k, st)
          {
            if KeyIndex(c.equals, ys, x.entries[k].key).Some? {
              var j' := KeyIndex(c.equals, ys, x.entries[k].key).value;
              IndependentImpl(c, v, x.entries[k].value, ys[j'].value, o.st, st);
            }
          }
        }
    }
  }

  /** `compareMaps`: type argument 1 is needed before the sizes are looked at;
      then the maps are equal exactly when the sizes agree and every key of x is
      a key of y under which the values compare equal. */
  lemma MapSemantics(c: Ctx, tt: TD, x: Value, y: Value, st: State)
    requires Undecided(c, tt, x, y) && KindOf(c.table, tt) == MapKind && x.MapV? && y.MapV?
    ensures |tt.args| < 2 ==> Impl(c, tt, x, y, st) == Out(Err(NoTypeArgument), st)
    ensures |tt.args| >= 2 ==>
      (Impl(c, tt, x, y, st).res == Ok(true) <==>
        |x.entries| == |y.entries| &&
        forall k :: 0 <= k < |x.entries| ==> EntryMatches(c, tt.args[1], x, y.entries, k, st))
  {
    if |tt.args| >= 2 && |x.entries| == |y.entries| {
      MapEntriesIff(c, tt.args[1], x, y.entries, 0, st);
    }
  }

  /** Strict comparison: true exactly when the lengths agree and every pair of
      elements at the same index compares equal. */
  lemma {:induction false} StrictIff(c: Ctx, ct: TD, x: Value, xs: seq<Value>, ys: seq<Value>, i: nat, st: State)
    requires (x.Arr? || x.ListV? || x.SetV?) && xs == Elements(x) && i <= |xs|
    requires !c.orderLenient
    ensures Strict(c, ct, x, xs, ys, i, st).res == Ok(true) <==>
      |xs| == |ys| && forall k :: i <= k < |xs| ==> Impl(c, ct, xs[k], ys[k], st).res == Ok(true)
    decreases |xs| - i
  {
    if i < |xs| && i < |ys| {
      var pushed := st.(path := PushIndexed(st.path, i));
      IndependentImpl(c, ct, xs[i], ys[i], pushed, st);
      if Impl(c, ct, xs[i], ys[i], pushed).res == Ok(true) {
        StrictStepEqual(c, ct, x, xs, ys, i, st);
        var st' := State(Normalized(st.path), st.detector);
        StrictIff(c, ct, x, xs, ys, i + 1, st');
        forall k | i + 1 <= k < |xs| && k < |ys|
          ensures Impl(c, ct, xs[k], ys[k], st').res == Impl(c, ct, xs[k], ys[k], st).res
        {
          IndependentImpl(c, ct, xs[k], ys[k], st', st);
        }
      } else {
        StrictStepOther(c, ct, x, xs, ys, i, st);
      }
    }
  }

  lemma PushIndexedNormalized(p: Path, k: nat)
    ensures PushIndexed(Normalized(p), k) == PushIndexed(p, k)
  {
    if p == [] {
      PushIndexedOnEmptySegment(k);
    }
  }

  function Min(a: nat, b: nat): nat
  {
    if a <= b then a else b
  }

  /** When one sequence is a proper prefix of the other (elementwise), the strict
      comparison is false and leaves the index of the shorter length pushed. */
  lemma {:induction false} StrictPrefixFailure(c: Ctx, ct: TD, x: Value, xs: seq<Value>, ys: seq<Value>, i: nat, st: State)
    requires (x.Arr? || x.ListV? || x.SetV?) && xs == Elements(x) && i <= Min(|xs|, |ys|)
    requires !c.orderLenient && |xs| != |ys|
    requires forall k :: i <= k < Min(|xs|, |ys|) ==> Impl(c, ct, xs[k], ys[k], st).res == Ok(true)
    ensures Strict(c, ct, x, xs, ys, i, st) ==
      Out(Ok(false), State(PushIndexed(st.path, Min(|xs|, |ys|)), st.detector))
    decreases |xs| - i
  {
    if i < Min(|xs|, |ys|) {
      var pushed := st.(path := PushIndexed(st.path, i));
      IndependentImpl(c, ct, xs[i], ys[i], pushed, st);
      StrictStepEqual(c, ct, x, xs, ys, i, st);
      var st' := State(Normalized(st.path), st.detector);
      forall k | i + 1 <= k < Min(|xs|, |ys|)
        ensures Impl(c, ct, xs[k], ys[k], st').res == Ok(true)
      {
        IndependentImpl(c, ct, xs[k], ys[k], st', st);
      }
      StrictPrefixFailure(c, ct, x, xs, ys, i + 1, st');
      PushIndexedNormalized(st.path, Min(|xs|, |ys|));
      assert Strict(c, ct, x, xs, ys, i, st) == Strict(c, ct, x, xs, ys, i + 1, st');
    } else if i == |xs| {
      assert Strict(c, ct, x, xs, ys, i, st) == Out(Ok(false), st.(path := PushIndexed(st.path, |xs|)));
    } else {
      assert Strict(c, ct, x, xs, ys, i, st) == Out(Ok(false), st.(path := PushIndexed(st.path, i)));
    }
  }

  /** At the first index k whose elements do not compare equal, the strict
      comparison ends with the outcome of comparing them with `[k]` on the path. */
  lemma {:induction false} StrictFirstMismatch(c: Ctx, ct: TD, x: Value, xs: seq<Value>, ys: seq<Value>,
                                               i: nat, k: nat, st: State)
    requires (x.Arr? || x.ListV? || x.SetV?) && xs == Elements(x)
    requires !c.orderLenient && i <= k < |xs| && k < |ys|
    requires forall j :: i <= j < k ==> Impl(c, ct, xs[j], ys[j], st).res == Ok(true)
    requires Impl(c, ct, xs[k], ys[k], st).res != Ok(true)
    ensures Strict(c, ct, x, xs, ys, i, st) ==
      Impl(c, ct, xs[k], ys[k], State(PushIndexed(st.path, k), st.detector))
    decreases k - i
  {
    var pushed := st.(path := PushIndexed(st.path, i));
    IndependentImpl(c, ct, xs[i], ys[i], pushed, st);
    if i == k {
      StrictStepOther(c, ct, x, xs, ys, i, st);
    } else {
      StrictStepEqual(c, ct, x, xs, ys, i, st);
      var st' := State(Normalized(st.path), st.detector);
      forall j | i + 1 <= j <= k
        ensures Impl(c, ct, xs[j], ys[j], st').res == Impl(c, ct, xs[j], ys[j], st).res
      {
        IndependentImpl(c, ct, xs[j], ys[j], st', st);
      }
      StrictFirstMismatch(c, ct, x, xs, ys, i + 1, k, st');
      PushIndexedNormalized(st.path, k);
    }
  }

  /** The claim scan returns the lowest unclaimed index from j on whose element
      compares equal, and reports none only when every unclaimed one differs. */
  lemma {:induction false} ClaimIsLowest(c: Ctx, ct: TD, x: Value, xs: seq<Value>, i: nat, ys: seq<Value>, j: nat,
                                         claimed: set<nat>, st: State)
    requires (x.Arr? || x.ListV? || x.SetV?) && xs == Elements(x) && i < |xs| && j <= |ys|
    ensures var f := Claim(c, ct, x, xs, i, ys, j, claimed, st);
      && (f.res.Ok? && f.res.value.Some? ==>
            Impl(c, ct, xs[i], ys[f.res.value.value], st).res == Ok(true)
            && forall j' :: j <= j' < f.res.value.value && j' !in claimed ==>
                 Impl(c, ct, xs[i], ys[j'], st).res == Ok(false))
      && (f.res == Ok(None) ==>
            forall j' :: j <= j' < |ys| && j' !in claimed ==> Impl(c, ct, xs[i], ys[j'], st).res == Ok(false))
      && (f.res.Ok? ==> f.st.detector == st.detector)
    decreases |ys| - j
  {
    if j < |ys| {
      if j in claimed {
        ClaimIsLowest(c, ct, x, xs, i, ys, j + 1, claimed, st);
      } else {
        var o := Impl(c, ct, xs[i], ys[j], st);
        FrameImpl(c, ct, xs[i], ys[j], st);
        if o.res == Ok(false) {
          ClaimIsLowest(c, ct, x, xs, i, ys, j + 1, claimed, o.st);
          forall j' | j + 1 <= j' < |ys|
            ensures Impl(c, ct, xs[i], ys[j'], o.st).res == Impl(c, ct, xs[i], ys[j'], st).res
          {
            IndependentImpl(c, ct, xs[i], ys[j'], o.st, st);
          }
        }
      }
    }
  }

  /** An order-lenient comparison that returns true pairs each element of x with
      its own element of y: distinct, previously unclaimed indices whose elements
      compare equal. */
  lemma {:induction false} LenientSound(c: Ctx, ct: TD, x: Value, xs: seq<Value>, ys: seq<Value>, i: nat,
                                        claimed: set<nat>, st: State) returns (m: seq<nat>)
    requires (x.Arr? || x.ListV? || x.SetV?) && xs == Elements(x) && i <= |xs|
    ensures Lenient(c, ct, x, xs, ys, i, claimed, st).res == Ok(true) ==>
      && |m| == |xs| - i
      && (forall k :: 0 <= k < |m| ==> m[k] < |ys| && m[k] !in claimed
                                       && Impl(c, ct, xs[i + k], ys[m[k]], st).res == Ok(true))
      && (forall k, l :: 0 <= k < l < |m| ==> m[k] != m[l])
    decreases |xs| - i
  {
    m := [];
    if i < |xs| {
      var f := Claim(c, ct, x, xs, i, ys, 0, claimed, st);
      ClaimIsLowest(c, ct, x, xs, i, ys, 0, claimed, st);
      if f.res.Ok? && f.res.value.Some? {
        var j := f.res.value.value;
        var rest := LenientSound(c, ct, x, xs, ys, i + 1, claimed + {j}, f.st);
        m := [j] + rest;
        if Lenient(c, ct, x, xs, ys, i, claimed, st).res == Ok(true) {
          forall k | 0 <= k < |rest|
            ensures Impl(c, ct, xs[i + 1 + k], ys[rest[k]], st).res == Ok(true)
          {
            IndependentImpl(c, ct, xs[i + 1 + k], ys[rest[k]], f.st, st);
          }
          assert forall k :: 0 < k < |m| ==> m[k] == rest[k - 1];
        }
      }
    }
  }

  /** Order leniency first compares sizes: different sizes are false, with no
      element compared and no state changed. */
  lemma LenientSizes(c: Ctx, ct: TD, x: Value, xs: seq<Value>, ys: seq<Value>, st: State)
    requires (x.Arr? || x.ListV? || x.SetV?) && xs == Elements(x)
    requires c.orderLenient && |xs| != |ys|
    ensures Sequences(c, ct, x, xs, ys, st) == Out(Ok(false), st)
  {
  }

  /** Two lists at a List type with an argument are compared as sequences of
      the argument type. */
  lemma ListDispatch(c: Ctx, tt: TD, x: Value, y: Value, st: State)
    requires Undecided(c, tt, x, y) && KindOf(c.table, tt) == ListKind
    requires |tt.args| > 0 && x.ListV? && y.ListV?
    ensures Impl(c, tt, x, y, st) == Sequences(c, tt.args[0], x, x.elems, y.elems, st)
  {
  }

  /** The List branch: type argument 0 is needed first, then both values must be
      lists; without order leniency the result is the strict comparison. */
  lemma ListSemantics(c: Ctx, tt: TD, x: Value, y: Value, st: State)
    requires Undecided(c, tt, x, y) && KindOf(c.table, tt) == ListKind && !c.orderLenient
    ensures |tt.args| == 0 ==> Impl(c, tt, x, y, st) == Out(Err(NoTypeArgument), st)
    ensures |tt.args| > 0 && !(x.ListV? && y.ListV?) ==> Impl(c, tt, x, y, st) == Out(Err(ClassCast), st)
    ensures |tt.args| > 0 && x.ListV? && y.ListV? ==>
      (Impl(c, tt, x, y, st).res == Ok(true) <==>
        |x.elems| == |y.elems| &&
        forall k :: 0 <= k < |x.elems| ==> Impl(c, tt.args[0], x.elems[k], y.elems[k], st).res == Ok(true))
  {
    if |tt.args| == 0 {
      assert TypeArg(tt, 0).None?;
    } else if !(x.ListV? && y.ListV?) {
      assert TypeArg(tt, 0) == Some(tt.args[0]);
    } else {
      ListDispatch(c, tt, x, y, st);
      assert Sequences(c, tt.args[0], x, x.elems, y.elems, st) == Strict(c, tt.args[0], x, x.elems, y.elems, 0, st);
      StrictIff(c, tt.args[0], x, x.elems, y.elems, 0, st);
    }
  }
}
