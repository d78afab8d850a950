/** A comparison's result does not depend on the diagnostic path it starts from:
    two runs that start with the same cycle detector return the same result and
    leave the same cycle detector, whatever their paths. The path is output only. */
module EngineIndependence {
  import opened Wrappers
  import opened Types
  import opened Values
  import opened Errors
  import opened Getter
  import opened ObjectPath
  import opened CycleDetector
  import opened Engine
  import opened EngineFrame

  predicate SameOutcome(o1: Out, o2: Out)
  {
    o1.res == o2.res && o1.st.detector == o2.st.detector
  }

  lemma {:induction false} IndependentImpl(c: Ctx, tt: TD, x: Value, y: Value, s1: State, s2: State)
    requires s1.detector == s2.detector
    ensures SameOutcome(Impl(c, tt, x, y, s1), Impl(c, tt, x, y, s2))
    decreases x, 2, 0
  {
    if x.Null? != y.Null? || Identical(x, y) || tt in c.registry.types {
    } else {
      match KindOf(c.table, tt)
      case ByEquals =>
      case ArrayKind =>
        if x.Arr? && y.Arr? && !IsPrimitive(tt.component) {
          IndependentSequences(c, tt.component, x, x.elems, y.elems, s1, s2);
        }
      case OptionalKind =>
        if x.Opt? && y.Opt? && x.content.Some? && y.content.Some? && TypeArg(tt, 0).Some? {
          IndependentImpl(c, TypeArg(tt, 0).value, x.content.value, y.content.value, s1, s2);
        }
      case SetKind =>
      case MapKind =>
        if x.MapV? && y.MapV? && TypeArg(tt, 1).Some? && |x.entries| == |y.entries| {
          IndependentMapEntries(c, TypeArg(tt, 1).value, x, y.entries, 0, s1, s2);
        }
      case ListKind =>
        if TypeArg(tt, 0).Some? && x.ListV? && y.ListV? {
          IndependentSequences(c, TypeArg(tt, 0).value, x, x.elems, y.elems, s1, s2);
        }
      case CollectionKind =>
        if TypeArg(tt, 0).Some? && (x.ListV? || x.SetV?) && (y.ListV? || y.SetV?) {
          IndependentSequences(c, TypeArg(tt, 0).value, x, Elements(x), Elements(y), s1, s2);
        }
      case IterableKind =>
        if TypeArg(tt, 0).Some? && (x.ListV? || x.SetV?) && (y.ListV? || y.SetV?) {
          IndependentSequences(c, TypeArg(tt, 0).value, x, Elements(x), Elements(y), s1, s2);
        }
      case CompositeKind =>
        match Getters.GettersOf(c.table, tt, c.options)
        case Err(_) =>
        case Ok(gs) =>
          if c.attributeProtocol {
            IndependentProtocol(c, tt, x, y, gs, 0, s1, s2);
          } else {
            IndependentDeep(c, x, y, gs, 0, s1, s2);
          }
    }
  }

  lemma {:induction false} IndependentMapEntries(c: Ctx, v: TD, x: Value, ys: seq<Entry>, i: nat, s1: State, s2: State)
    requires x.MapV? && i <= |x.entries|
    requires s1.detector == s2.detector
    ensures SameOutcome(MapEntries(c, v, x, ys, i, s1), MapEntries(c, v, x, ys, i, s2))
    decreases x, 1, |x.entries| - i
  {
    if i < |x.entries| {
      var e := x.entries[i];
      match KeyIndex(c.equals, ys, e.key)
      case None =>
      case Some(k) =>
        var o1 := Impl(c, v, e.value, ys[k].value, s1);
        var o2 := Impl(c, v, e.value, ys[k].value, s2);
        IndependentImpl(c, v, e.value, ys[k].value, s1, s2);
        if o1.res == Ok(true) {
          IndependentMapEntries(c, v, x, ys, i + 1, o1.st, o2.st);
        }
    }
  }

  lemma {:induction false} IndependentSequences(c: Ctx, ct: TD, x: Value, xs: seq<Value>, ys: seq<Value>, s1: State, s2: State)
    requires (x.Arr? || x.ListV? || x.SetV?) && xs == Elements(x)
    requires s1.detector == s2.detector
    ensures SameOutcome(Sequences(c, ct, x, xs, ys, s1), Sequences(c, ct, x, xs, ys, s2))
    decreases x, 1, |xs| + 1
  {
    if c.orderLenient {
      if |xs| == |ys| {
        IndependentLenient(c, ct, x, xs, ys, 0, {}, s1, s2);
      }
    } else {
      IndependentStrict(c, ct, x, xs, ys, 0, s1, s2);
    }
  }

  lemma {:induction false} IndependentStrict(c: Ctx, ct: TD, x: Value, xs: seq<Value>, ys: seq<Value>, i: nat,
                                             s1: State, s2: State)
    requires (x.Arr? || x.ListV? || x.SetV?) && xs == Elements(x) && i <= |xs|
    requires !c.orderLenient
    requires s1.detector == s2.detector
    ensures SameOutcome(Strict(c, ct, x, xs, ys, i, s1), Strict(c, ct, x, xs, ys, i, s2))
    decreases x, 1, |xs| - i
  {
    if i < |xs| && i < |ys| {
      var p1 := s1.(path := PushIndexed(s1.path, i));
      var p2 := s2.(path := PushIndexed(s2.path, i));
      IndependentImpl(c, ct, xs[i], ys[i], p1, p2);
      if Impl(c, ct, xs[i], ys[i], p1).res == Ok(true) {
        StrictStepEqual(c, ct, x, xs, ys, i, s1);
        StrictStepEqual(c, ct, x, xs, ys, i, s2);
        IndependentStrict(c, ct, x, xs, ys, i + 1, State(Normalized(s1.path), s1.detector),
                          State(Normalized(s2.path), s2.detector));
      } else {
        StrictStepOther(c, ct, x, xs, ys, i, s1);
        StrictStepOther(c, ct, x, xs, ys, i, s2);
      }
    }
  }

  lemma {:induction false} IndependentLenient(c: Ctx, ct: TD, x: Value, xs: seq<Value>, ys: seq<Value>, i: nat,
                                              claimed: set<nat>, s1: State, s2: State)
    requires (x.Arr? || x.ListV? || x.SetV?) && xs == Elements(x) && i <= |xs|
    requires s1.detector == s2.detector
    ensures SameOutcome(Lenient(c, ct, x, xs, ys, i, claimed, s1), Lenient(c, ct, x, xs, ys, i, claimed, s2))
    decreases x, 1, |xs| - i
  {
    if i < |xs| {
      var f1 := Claim(c, ct, x, xs, i, ys, 0, claimed, s1);
      var f2 := Claim(c, ct, x, xs, i, ys, 0, claimed, s2);
      IndependentClaim(c, ct, x, xs, i, ys, 0, claimed, s1, s2);
      if f1.res.Ok? && f1.res.value.Some? {
        IndependentLenient(c, ct, x, xs, ys, i + 1, claimed + {f1.res.value.value}, f1.st, f2.st);
      }
    }
  }

  lemma {:induction false} IndependentClaim(c: Ctx, ct: TD, x: Value, xs: seq<Value>, i: nat, ys: seq<Value>, j: nat,
                                            claimed: set<nat>, s1: State, s2: State)
    requires (x.Arr? || x.ListV? || x.SetV?) && xs == Elements(x) && i < |xs| && j <= |ys|
    requires s1.detector == s2.detector
    ensures var f1 := Claim(c, ct, x, xs, i, ys, j, claimed, s1);
            var f2 := Claim(c, ct, x, xs, i, ys, j, claimed, s2);
            f1.res == f2.res && f1.st.detector == f2.st.detector
    decreases x, 0, |ys| - j
  {
    if j < |ys| {
      if j in claimed {
        IndependentClaim(c, ct, x, xs, i, ys, j + 1, claimed, s1, s2);
      } else {
        var o1 := Impl(c, ct, xs[i], ys[j], s1);
        var o2 := Impl(c, ct, xs[i], ys[j], s2);
        IndependentImpl(c, ct, xs[i], ys[j], s1, s2);
        if o1.res == Ok(false) {
          IndependentClaim(c, ct, x, xs, i, ys, j + 1, claimed, o1.st, o2.st);
        }
      }
    }
  }

  lemma {:induction false} IndependentDeep(c: Ctx, x: Value, y: Value, gs: seq<Getter>, i: nat, s1: State, s2: State)
    requires i <= |gs|
    requires s1.detector == s2.detector
    ensures SameOutcome(Deep(c, x, y, gs, i, s1), Deep(c, x, y, gs, i, s2))
    decreases x, 1, |gs| - i
  {
    if i < |gs| {
      var g := gs[i];
      if Get(g, x).Ok? && Get(g, y).Ok? {
        var o1 := Impl(c, Type(g), Get(g, x).value, Get(g, y).value, s1);
        var o2 := Impl(c, Type(g), Get(g, x).value, Get(g, y).value, s2);
        IndependentImpl(c, Type(g), Get(g, x).value, Get(g, y).value, s1, s2);
        if o1.res == Ok(true) {
          IndependentDeep(c, x, y, gs, i + 1, o1.st, o2.st);
        }
      }
    }
  }

  lemma {:induction false} IndependentProtocol(c: Ctx, tt: TD, x: Value, y: Value, gs: seq<Getter>, i: nat,
                                               s1: State, s2: State)
    requires i <= |gs|
    requires s1.detector == s2.detector
    ensures SameOutcome(Protocol(c, tt, x, y, gs, i, s1), Protocol(c, tt, x, y, gs, i, s2))
    decreases x, 1, |gs| - i
  {
    if i < |gs| {
      var g := gs[i];
      var d := Added(s1.detector, g);
      if d.cycle.None? && Get(g, x).Ok? && Get(g, y).Ok? {
        var xf, yf := Get(g, x).value, Get(g, y).value;
        var t1 := State(PushNode(s1.path, Name(g)), d);
        var t2 := State(PushNode(s2.path, Name(g)), d);
        var key := FieldKey(tt, Name(g));
        if key !in c.registry.fields {
          var o1 := Impl(c, Type(g), xf, yf, t1);
          var o2 := Impl(c, Type(g), xf, yf, t2);
          IndependentImpl(c, Type(g), xf, yf, t1, t2);
          if o1.res == Ok(true) {
            FrameImpl(c, Type(g), xf, yf, t1);
            FrameImpl(c, Type(g), xf, yf, t2);
            var q1 := o1.st.path[..|o1.st.path| - 1];
            var q2 := o2.st.path[..|o2.st.path| - 1];
            assert PopNode(o1.st.path) == Ok(q1) && PopNode(o2.st.path) == Ok(q2);
            IndependentProtocol(c, tt, x, y, gs, i + 1, State(q1, Removed(o1.st.detector)), State(q2, Removed(o2.st.detector)));
          }
        } else if c.registry.fields[key](xf, yf) {
          IndependentProtocol(c, tt, x, y, gs, i + 1, State(s1.path, Removed(d)), State(s2.path, Removed(d)));
        }
      }
    }
  }
}
