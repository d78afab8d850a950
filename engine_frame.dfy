/** What a comparison does to the diagnostic path and the cycle detector, proved
    by one induction over the engine's mutually recursive functions:

    - the path only grows: below the top nothing changes, the top segment only
      gets longer, and segments are only added above it;
    - a comparison that returns (true or false) leaves the cycle detector as it
      found it;
    - without order leniency, a comparison that returns true leaves the path as it
      found it, except that an empty path may come back as one empty segment;
    - with order leniency and the live composite step, nothing changes at all;
    - the path operations never fail: no comparison ends in `EmptyStack` or
      `IndexOutOfBounds`. */
module EngineFrame {
  import opened Wrappers
  import opened Types
  import opened Values
  import opened Errors
  import opened Getter
  import opened ObjectPath
  import opened Cycle
  import opened CycleDetector
  import opened Engine

  /** q is p, or p was empty and q is the single empty segment `popIndexedNode`
      leaves behind. */
  predicate PathRestored(p: Path, q: Path)
  {
    q == p || (p == [] && q == [""])
  }

  /** q extends p: at least as long, the same below p's top segment, and p's top
      segment a prefix of q's segment at that height. */
  predicate Extends(p: Path, q: Path)
  {
    |q| >= |p| && (|p| > 0 ==> q[..|p| - 1] == p[..|p| - 1] && p[|p| - 1] <= q[|p| - 1])
  }

  lemma ExtendsTransitive(p: Path, q: Path, r: Path)
    requires Extends(p, q) && Extends(q, r)
    ensures Extends(p, r)
  {
    if |p| > 0 {
      assert r[..|p| - 1] == r[..|q| - 1][..|p| - 1];
      assert q[..|p| - 1] == q[..|q| - 1][..|p| - 1];
      if |q| == |p| {
      } else {
        assert r[|p| - 1] == r[..|q| - 1][|p| - 1];
        assert q[|p| - 1] == q[..|q| - 1][|p| - 1];
      }
    }
  }

  /** A path that extends p with a segment pushed on top extends p, and so does
      what is left of it once its top is popped. */
  lemma PushedThenExtended(p: Path, name: string, q: Path)
    requires Extends(PushNode(p, name), q)
    ensures Extends(p, q) && |q| > 0 && Extends(p, q[..|q| - 1])
  {
    assert q[..|p|] == p;
    if |p| > 0 {
      assert q[..|p| - 1] == q[..|p|][..|p| - 1];
      assert q[|p| - 1] == q[..|p|][|p| - 1];
      var r := q[..|q| - 1];
      assert r[..|p|] == p;
      assert r[..|p| - 1] == r[..|p|][..|p| - 1];
      assert r[|p| - 1] == r[..|p|][|p| - 1];
    }
  }

  predicate NoPathError<T>(r: Result<T, Error>)
  {
    r != Err(EmptyStack) && r != Err(IndexOutOfBounds)
  }

  predicate Frame(c: Ctx, st: State, o: Out)
  {
    && Extends(st.path, o.st.path)
    && (o.res.Ok? ==> o.st.detector == st.detector)
    && (!c.orderLenient && o.res == Ok(true) ==> PathRestored(st.path, o.st.path))
    && (c.orderLenient && !c.attributeProtocol ==> o.st == st)
    && NoPathError(o.res)
  }

  predicate FrameFound(c: Ctx, st: State, f: Found)
  {
    && Extends(st.path, f.st.path)
    && (f.res.Ok? ==> f.st.detector == st.detector)
    && (c.orderLenient && !c.attributeProtocol ==> f.st == st)
    && NoPathError(f.res)
  }

  /** An outcome that leaves the state as it was and is no path error keeps the
      frame. */
  lemma Unchanged(c: Ctx, st: State, o: Out)
    requires o.st == st && NoPathError(o.res)
    ensures Frame(c, st, o)
  {
  }

  lemma {:induction false} FrameImpl(c: Ctx, tt: TD, x: Value, y: Value, st: State)
    ensures Frame(c, st, Impl(c, tt, x, y, st))
    decreases x, 3, 0
  {
    if x.Null? != y.Null? || Identical(x, y) || tt in c.registry.types {
      Unchanged(c, st, Impl(c, tt, x, y, st));
    } else if KindOf(c.table, tt) == CompositeKind {
      match Getters.GettersOf(c.table, tt, c.options)
      case Err(e) =>
        assert Impl(c, tt, x, y, st) == Out(Err(e), st);
        Unchanged(c, st, Out(Err(e), st));
      case Ok(gs) => FrameComposite(c, tt, x, y, gs, st);
    } else {
      FrameContainer(c, tt, x, y, st);
    }
  }

  /** The container branches of `deepEqualsImpl`. */
  lemma {:induction false} FrameContainer(c: Ctx, tt: TD, x: Value, y: Value, st: State)
    requires x.Null? == y.Null? && !Identical(x, y) && tt !in c.registry.types
    requires KindOf(c.table, tt) != CompositeKind
    ensures Frame(c, st, Impl(c, tt, x, y, st))
    decreases x, 2, 0
  {
    match KindOf(c.table, tt)
    case ByEquals =>
    case ArrayKind =>
      if x.Arr? && y.Arr? && !IsPrimitive(tt.component) {
        FrameSequences(c, tt.component, x, x.elems, y.elems, st);
      }
    case OptionalKind =>
      if x.Opt? && y.Opt? && x.content.Some? && y.content.Some? && TypeArg(tt, 0).Some? {
        FrameImpl(c, TypeArg(tt, 0).value, x.content.value, y.content.value, st);
      }
    case SetKind =>
    case MapKind =>
      if x.MapV? && y.MapV? && TypeArg(tt, 1).Some? && |x.entries| == |y.entries| {
        FrameMapEntries(c, TypeArg(tt, 1).value, x, y.entries, 0, st);
      }
    case ListKind =>
      if TypeArg(tt, 0).Some? && x.ListV? && y.ListV? {
        FrameSequences(c, TypeArg(tt, 0).value, x, x.elems, y.elems, st);
      }
    case CollectionKind =>
      if TypeArg(tt, 0).Some? && (x.ListV? || x.SetV?) && (y.ListV? || y.SetV?) {
        FrameSequences(c, TypeArg(tt, 0).value, x, Elements(x), Elements(y), st);
      }
    case IterableKind =>
      if TypeArg(tt, 0).Some? && (x.ListV? || x.SetV?) && (y.ListV? || y.SetV?) {
        FrameSequences(c, TypeArg(tt, 0).value, x, Elements(x), Elements(y), st);
      }
  }

  /** The composite branch of `deepEqualsImpl`, once the getters are known. */
  lemma {:induction false} FrameComposite(c: Ctx, tt: TD, x: Value, y: Value, gs: seq<Getter>, st: State)
    requires x.Null? == y.Null? && !Identical(x, y) && tt !in c.registry.types
    requires KindOf(c.table, tt) == CompositeKind && Getters.GettersOf(c.table, tt, c.options) == Ok(gs)
    ensures Frame(c, st, Impl(c, tt, x, y, st))
    decreases x, 2, 0
  {
    if c.attributeProtocol {
      FrameProtocol(c, tt, x, y, gs, 0, st);
    } else {
      FrameDeep(c, x, y, gs, 0, st);
    }
  }

  lemma {:induction false} FrameMapEntries(c: Ctx, v: TD, x: Value, ys: seq<Entry>, i: nat, st: State)
    requires x.MapV? && i <= |x.entries|
    ensures Frame(c, st, MapEntries(c, v, x, ys, i, st))
    decreases x, 1, |x.entries| - i
  {
    if i < |x.entries| {
      var e := x.entries[i];
      match KeyIndex(c.equals, ys, e.key)
      case None =>
      case Some(k) =>
        var o := Impl(c, v, e.value, ys[k].value, st);
        FrameImpl(c, v, e.value, ys[k].value, st);
        if o.res == Ok(true) {
          FrameMapEntries(c, v, x, ys, i + 1, o.st);
        }
    }
  }

  lemma {:induction false} FrameSequences(c: Ctx, ct: TD, x: Value, xs: seq<Value>, ys: seq<Value>, st: State)
    requires (x.Arr? || x.ListV? || x.SetV?) && xs == Elements(x)
    ensures Frame(c, st, Sequences(c, ct, x, xs, ys, st))
    decreases x, 1, |xs| + 1
  {
    if c.orderLenient {
      if |xs| == |ys| {
        FrameLenient(c, ct, x, xs, ys, 0, {}, st);
      }
    } else {
      FrameStrict(c, ct, x, xs, ys, 0, st);
    }
  }

  lemma {:induction false} FrameStrict(c: Ctx, ct: TD, x: Value, xs: seq<Value>, ys: seq<Value>, i: nat, st: State)
    requires (x.Arr? || x.ListV? || x.SetV?) && xs == Elements(x) && i <= |xs|
    requires !c.orderLenient
    ensures Frame(c, st, Strict(c, ct, x, xs, ys, i, st))
    decreases x, 1, |xs| - i, 1
  {
    if i < |xs| {
      var pushed := st.(path := PushIndexed(st.path, i));
      if i < |ys| {
        var o := Impl(c, ct, xs[i], ys[i], pushed);
        if o.res == Ok(true) {
          StrictStepEqual(c, ct, x, xs, ys, i, st);
          FrameStrict(c, ct, x, xs, ys, i + 1, State(Normalized(st.path), st.detector));
        } else {
          FrameImpl(c, ct, xs[i], ys[i], pushed);
          StrictStepOther(c, ct, x, xs, ys, i, st);
          ExtendsTransitive(st.path, pushed.path, o.st.path);
        }
      }
    }
  }

  lemma {:induction false} FrameLenient(c: Ctx, ct: TD, x: Value, xs: seq<Value>, ys: seq<Value>, i: nat,
                                        claimed: set<nat>, st: State)
    requires (x.Arr? || x.ListV? || x.SetV?) && xs == Elements(x) && i <= |xs|
    requires c.orderLenient
    ensures Frame(c, st, Lenient(c, ct, x, xs, ys, i, claimed, st))
    decreases x, 1, |xs| - i
  {
    if i < |xs| {
      var f := Claim(c, ct, x, xs, i, ys, 0, claimed, st);
      FrameClaim(c, ct, x, xs, i, ys, 0, claimed, st);
      if f.res.Ok? && f.res.value.Some? {
        FrameLenient(c, ct, x, xs, ys, i + 1, claimed + {f.res.value.value}, f.st);
      }
    }
  }

  lemma {:induction false} FrameClaim(c: Ctx, ct: TD, x: Value, xs: seq<Value>, i: nat, ys: seq<Value>, j: nat,
                                      claimed: set<nat>, st: State)
    requires (x.Arr? || x.ListV? || x.SetV?) && xs == Elements(x) && i < |xs| && j <= |ys|
    requires c.orderLenient
    ensures FrameFound(c, st, Claim(c, ct, x, xs, i, ys, j, claimed, st))
    decreases x, 0, |ys| - j
  {
    if j < |ys| {
      if j in claimed {
        FrameClaim(c, ct, x, xs, i, ys, j + 1, claimed, st);
      } else {
        var o := Impl(c, ct, xs[i], ys[j], st);
        FrameImpl(c, ct, xs[i], ys[j], st);
        if o.res == Ok(false) {
          FrameClaim(c, ct, x, xs, i, ys, j + 1, claimed, o.st);
        }
      }
    }
  }

  lemma {:induction false} FrameDeep(c: Ctx, x: Value, y: Value, gs: seq<Getter>, i: nat, st: State)
    requires i <= |gs|
    ensures Frame(c, st, Deep(c, x, y, gs, i, st))
    decreases x, 1, |gs| - i
  {
    if i < |gs| {
      var g := gs[i];
      if Get(g, x).Ok? && Get(g, y).Ok? {
        var o := Impl(c, Type(g), Get(g, x).value, Get(g, y).value, st);
        FrameImpl(c, Type(g), Get(g, x).value, Get(g, y).value, st);
        if o.res == Ok(true) {
          var rest := Deep(c, x, y, gs, i + 1, o.st);
          assert Deep(c, x, y, gs, i, st) == rest;
          FrameDeep(c, x, y, gs, i + 1, o.st);
          ExtendsTransitive(st.path, o.st.path, rest.st.path);
        } else {
          assert Deep(c, x, y, gs, i, st) == o;
        }
      } else {
        assert Deep(c, x, y, gs, i, st).st == st;
      }
    }
  }

  lemma {:induction false} FrameProtocol(c: Ctx, tt: TD, x: Value, y: Value, gs: seq<Getter>, i: nat, st: State)
    requires i <= |gs|
    requires c.attributeProtocol
    ensures Frame(c, st, Protocol(c, tt, x, y, gs, i, st))
    decreases x, 1, |gs| - i, 2
  {
    if i == |gs| {
      Unchanged(c, st, Out(Ok(true), st));
    } else {
      var g := gs[i];
      var d := Added(st.detector, g);
      ProtocolBeforeComparison(c, tt, x, y, gs, i, st);
      assert Extends(st.path, st.path);
      if d.cycle.None? {
        var s1 := State(PushNode(st.path, Name(g)), d);
        assert Extends(s1.path, s1.path);
        PushedThenExtended(st.path, Name(g), s1.path);
        if Get(g, x).Ok? && Get(g, y).Ok? {
          FrameProtocolAttribute(c, tt, x, y, gs, i, st);
        }
      }
    }
  }

  /** The protocol's step for an attribute both objects yield. */
  lemma {:induction false} FrameProtocolAttribute(c: Ctx, tt: TD, x: Value, y: Value, gs: seq<Getter>, i: nat, st: State)
    requires i < |gs|
    requires c.attributeProtocol
    requires Added(st.detector, gs[i]).cycle.None?
    requires Get(gs[i], x).Ok? && Get(gs[i], y).Ok?
    ensures Frame(c, st, Protocol(c, tt, x, y, gs, i, st))
    decreases x, 1, |gs| - i, 1
  {
    var g := gs[i];
    var s1 := State(PushNode(st.path, Name(g)), Added(st.detector, g));
    var xf, yf := Get(g, x).value, Get(g, y).value;
    var key := FieldKey(tt, Name(g));
    var o := if key in c.registry.fields then Out(Ok(c.registry.fields[key](xf, yf)), s1)
             else Impl(c, Type(g), xf, yf, s1);
    if key !in c.registry.fields {
      FrameImpl(c, Type(g), xf, yf, s1);
    } else {
      assert Extends(s1.path, s1.path);
    }
    ProtocolAfterComparison(c, tt, x, y, gs, i, st, o);
    FrameProtocolAfter(c, tt, x, y, gs, i, st, o);
  }

  /** The rest of the protocol's step once the attribute's comparison has
      produced o within the frame of the pushed name. */
  lemma {:induction false} FrameProtocolAfter(c: Ctx, tt: TD, x: Value, y: Value, gs: seq<Getter>, i: nat, st: State, o: Out)
    requires i < |gs|
    requires c.attributeProtocol
    requires Added(st.detector, gs[i]).cycle.None?
    requires Frame(c, State(PushNode(st.path, Name(gs[i])), Added(st.detector, gs[i])), o)
    requires o.res.Err? ==> Protocol(c, tt, x, y, gs, i, st) == o
    requires o.res == Ok(false) ==>
      Protocol(c, tt, x, y, gs, i, st) == Out(Ok(false), o.st.(detector := Removed(o.st.detector)))
    requires o.res == Ok(true) && o.st.path != [] ==>
      Protocol(c, tt, x, y, gs, i, st) ==
      Protocol(c, tt, x, y, gs, i + 1, State(o.st.path[..|o.st.path| - 1], Removed(o.st.detector)))
    ensures Frame(c, st, Protocol(c, tt, x, y, gs, i, st))
    decreases x, 1, |gs| - i, 0
  {
    var g := gs[i];
    assert g !in st.detector.sequence;
    RemovedUndoesAdded(st.detector, g);
    PushedThenExtended(st.path, Name(g), o.st.path);
    if o.res.Err? {
      assert Protocol(c, tt, x, y, gs, i, st) == o;
    } else if o.res.value {
      var p := o.st.path[..|o.st.path| - 1];
      var rest := Protocol(c, tt, x, y, gs, i + 1, State(p, Removed(o.st.detector)));
      FrameProtocol(c, tt, x, y, gs, i + 1, State(p, Removed(o.st.detector)));
      ExtendsTransitive(st.path, p, rest.st.path);
      assert Protocol(c, tt, x, y, gs, i, st) == rest;
    } else {
      assert Protocol(c, tt, x, y, gs, i, st) == Out(Ok(false), o.st.(detector := Removed(o.st.detector)));
    }
  }

  /** Once the values of attribute i have been compared, by its field comparator
      or recursively, with outcome o: an error ends the protocol with o, false
      ends it with the getter removed from the detector, and true pops the name
      (an empty path is the stack error) and moves on from the next attribute. */
  lemma ProtocolAfterComparison(c: Ctx, tt: TD, x: Value, y: Value, gs: seq<Getter>, i: nat, st: State, o: Out)
    requires i < |gs| && Added(st.detector, gs[i]).cycle.None?
    requires Get(gs[i], x).Ok? && Get(gs[i], y).Ok?
    requires var s1 := State(PushNode(st.path, Name(gs[i])), Added(st.detector, gs[i]));
             var key := FieldKey(tt, Name(gs[i]));
             o == if key in c.registry.fields then Out(Ok(c.registry.fields[key](Get(gs[i], x).value, Get(gs[i], y).value)), s1)
                  else Impl(c, Type(gs[i]), Get(gs[i], x).value, Get(gs[i], y).value, s1)
    ensures o.res.Err? ==> Protocol(c, tt, x, y, gs, i, st) == o
    ensures o.res == Ok(false) ==>
      Protocol(c, tt, x, y, gs, i, st) == Out(Ok(false), o.st.(detector := Removed(o.st.detector)))
    ensures o.res == Ok(true) && o.st.path == [] ==> Protocol(c, tt, x, y, gs, i, st) == Out(Err(EmptyStack), o.st)
    ensures o.res == Ok(true) && o.st.path != [] ==>
      Protocol(c, tt, x, y, gs, i, st) ==
      Protocol(c, tt, x, y, gs, i + 1, State(o.st.path[..|o.st.path| - 1], Removed(o.st.detector)))
  {
  }

  /** The protocol for attribute i before its values are compared: a cycle
      ends it with the detector holding the getter, and an accessor failure on
      x or on y ends it with the name pushed as well. */
  lemma ProtocolBeforeComparison(c: Ctx, tt: TD, x: Value, y: Value, gs: seq<Getter>, i: nat, st: State)
    requires i < |gs|
    ensures var d := Added(st.detector, gs[i]);
      d.cycle.Some? ==> Protocol(c, tt, x, y, gs, i, st) == Out(Err(CycleDetected(Report(d.cycle.value))), st.(detector := d))
    ensures var d := Added(st.detector, gs[i]);
      d.cycle.None? && Get(gs[i], x).Err? ==>
      Protocol(c, tt, x, y, gs, i, st) == Out(Err(Get(gs[i], x).error), State(PushNode(st.path, Name(gs[i])), d))
    ensures var d := Added(st.detector, gs[i]);
      d.cycle.None? && Get(gs[i], x).Ok? && Get(gs[i], y).Err? ==>
      Protocol(c, tt, x, y, gs, i, st) == Out(Err(Get(gs[i], y).error), State(PushNode(st.path, Name(gs[i])), d))
  {
  }

  /** The strict comparison at index i once the elements were compared, with
      outcome o, on the path with the index pushed: anything but true ends it
      with o; true pops the index (a failed pop is the error) and moves on. */
  lemma StrictAfterComparison(c: Ctx, ct: TD, x: Value, xs: seq<Value>, ys: seq<Value>, i: nat, st: State, o: Out)
    requires (x.Arr? || x.ListV? || x.SetV?) && xs == Elements(x) && i < |xs| && i < |ys|
    requires o == Impl(c, ct, xs[i], ys[i], st.(path := PushIndexed(st.path, i)))
    ensures o.res != Ok(true) ==> Strict(c, ct, x, xs, ys, i, st) == o
    ensures o.res == Ok(true) && PopIndexed(o.st.path).Err? ==>
      Strict(c, ct, x, xs, ys, i, st) ==
      Out(Err(PopIndexed(o.st.path).error), o.st.(path := AfterFailedPopIndexed(o.st.path)))
    ensures o.res == Ok(true) && PopIndexed(o.st.path).Ok? ==>
      Strict(c, ct, x, xs, ys, i, st) == Strict(c, ct, x, xs, ys, i + 1, o.st.(path := PopIndexed(o.st.path).value))
  {
  }

  /** The path a successful strict step leaves: the one it started from, or
      the single empty segment for an empty one. */
  function Normalized(p: Path): Path
  {
    if p == [] then [""] else p
  }

  /** One equal element in a strict comparison moves on to the next index with the
      detector unchanged and the path normalized. */
  lemma StrictStepEqual(c: Ctx, ct: TD, x: Value, xs: seq<Value>, ys: seq<Value>, i: nat, st: State)
    requires (x.Arr? || x.ListV? || x.SetV?) && xs == Elements(x) && i < |xs| && i < |ys|
    requires !c.orderLenient
    requires Impl(c, ct, xs[i], ys[i], st.(path := PushIndexed(st.path, i))).res == Ok(true)
    ensures Strict(c, ct, x, xs, ys, i, st) == Strict(c, ct, x, xs, ys, i + 1, State(Normalized(st.path), st.detector))
    decreases x, 1, |xs| - i, 0
  {
    var pushed := st.(path := PushIndexed(st.path, i));
    var o := Impl(c, ct, xs[i], ys[i], pushed);
    FrameImpl(c, ct, xs[i], ys[i], pushed);
    assert o.st.path == pushed.path;
    PopIndexedAfterPushIndexed(st.path, i);
    assert PopIndexed(o.st.path) == Ok(Normalized(st.path));
    assert o.st.(path := Normalized(st.path)) == State(Normalized(st.path), st.detector);
  }

  /** A strict step whose element comparison does not return true ends the
      comparison with that outcome. */
  lemma StrictStepOther(c: Ctx, ct: TD, x: Value, xs: seq<Value>, ys: seq<Value>, i: nat, st: State)
    requires (x.Arr? || x.ListV? || x.SetV?) && xs == Elements(x) && i < |xs| && i < |ys|
    requires Impl(c, ct, xs[i], ys[i], st.(path := PushIndexed(st.path, i))).res != Ok(true)
    ensures Strict(c, ct, x, xs, ys, i, st) == Impl(c, ct, xs[i], ys[i], st.(path := PushIndexed(st.path, i)))
  {
  }
}
