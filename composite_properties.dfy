/** The composite step: the live `compareDeep` (DeepEquals.java:220-228) is an
    all-match over the getters, and the per-attribute protocol
    (DeepEquals.java:230-255) reports cycles, lets field comparators decide,
    keeps the failing attribute's name on the path and leaves no trace of an
    attribute that compared equal. */
module CompositeProperties {
  import opened Wrappers
  import opened Types
  import opened Values
  import opened Errors
  import opened Getter
  import Getters
  import opened ObjectPath
  import opened Cycle
  import opened CycleDetector
  import opened Engine
  import opened EngineFrame
  import opened EngineIndependence

  /** A composite type with no type comparator: the getters' extraction error,
      or the composite step over the getters from the first on. */
  lemma CompositeDispatch(c: Ctx, tt: TD, x: Value, y: Value, st: State)
    requires x.Null? == y.Null? && !Identical(x, y) && tt !in c.registry.types
    requires KindOf(c.table, tt) == CompositeKind
    ensures Getters.GettersOf(c.table, tt, c.options).Err? ==>
      Impl(c, tt, x, y, st) == Out(Err(Getters.GettersOf(c.table, tt, c.options).error), st)
    ensures Getters.GettersOf(c.table, tt, c.options).Ok? ==>
      var gs := Getters.GettersOf(c.table, tt, c.options).value;
      Impl(c, tt, x, y, st) == if c.attributeProtocol then Protocol(c, tt, x, y, gs, 0, st) else Deep(c, x, y, gs, 0, st)
  {
  }

  /** Attribute g reads on both objects and its values compare equal at its type. */
  predicate AttributeEqual(c: Ctx, g: Getter, x: Value, y: Value, st: State)
  {
    && Get(g, x).Ok? && Get(g, y).Ok?
    && Impl(c, Type(g), Get(g, x).value, Get(g, y).value, st).res == Ok(true)
  }

  /** `allMatch`: the live composite step is true exactly when every remaining
      attribute reads on both sides and compares equal, each judged on its own
      from the same state. */
  lemma {:induction false} DeepAllMatch(c: Ctx, x: Value, y: Value, gs: seq<Getter>, i: nat, st: State)
    requires i <= |gs|
    ensures Deep(c, x, y, gs, i, st).res == Ok(true) <==>
      forall k :: i <= k < |gs| ==> AttributeEqual(c, gs[k], x, y, st)
    decreases |gs| - i
  {
    if i < |gs| {
      var g := gs[i];
      if Get(g, x).Ok? && Get(g, y).Ok? {
        var o := Impl(c, Type(g), Get(g, x).value, Get(g, y).value, st);
        if o.res == Ok(true) {
          FrameImpl(c, Type(g), Get(g, x).value, Get(g, y).value, st);
          IndependentDeep(c, x, y, gs, i + 1, o.st, st);
          DeepAllMatch(c, x, y, gs, i + 1, st);
          assert AttributeEqual(c, gs[i], x, y, st);
          assert Deep(c, x, y, gs, i, st) == Deep(c, x, y, gs, i + 1, o.st);
        } else {
          assert !AttributeEqual(c, gs[i], x, y, st);
        }
      } else {
        assert !AttributeEqual(c, gs[i], x, y, st);
      }
    }
  }

  /** A getter already on the detector's chain is a cycle error, reported with the
      chain and the getter's position on it, before anything is read. */
  lemma ProtocolCycle(c: Ctx, tt: TD, x: Value, y: Value, gs: seq<Getter>, i: nat, st: State)
    requires i < |gs| && gs[i] in st.detector.sequence
    ensures Protocol(c, tt, x, y, gs, i, st).res ==
      Err(CycleDetected(Report(Cycle(st.detector.sequence, IndexOf(st.detector.sequence, gs[i])))))
    ensures Protocol(c, tt, x, y, gs, i, st).st.path == st.path
  {
  }

  /** An accessor that throws ends the comparison with its failure, the attribute
      name already on the path. */
  lemma ProtocolAccessorFailure(c: Ctx, tt: TD, x: Value, y: Value, gs: seq<Getter>, i: nat, st: State)
    requires i < |gs| && gs[i] !in st.detector.sequence && st.detector.cycle.None?
    requires Get(gs[i], x).Err? || Get(gs[i], y).Err?
    ensures Protocol(c, tt, x, y, gs, i, st).res == Err(AccessorFailure(DeclaringClass(gs[i]), Name(gs[i])))
    ensures Protocol(c, tt, x, y, gs, i, st).st.path == PushNode(st.path, Name(gs[i]))
  {
    var g := gs[i];
    var s1 := State(PushNode(st.path, Name(g)), Added(st.detector, g));
    if Get(g, x).Err? {
      assert Protocol(c, tt, x, y, gs, i, st) == Out(Err(Get(g, x).error), s1);
    } else {
      assert Protocol(c, tt, x, y, gs, i, st) == Out(Err(Get(g, y).error), s1);
    }
  }

  /** A failure inside the recursive comparison of an attribute ends the
      protocol with that failure and the state it left. */
  lemma ProtocolNestedFailure(c: Ctx, tt: TD, x: Value, y: Value, gs: seq<Getter>, i: nat, st: State)
    requires i < |gs| && gs[i] !in st.detector.sequence && st.detector.cycle.None?
    requires Get(gs[i], x).Ok? && Get(gs[i], y).Ok?
    requires FieldKey(tt, Name(gs[i])) !in c.registry.fields
    requires Impl(c, Type(gs[i]), Get(gs[i], x).value, Get(gs[i], y).value,
                  State(PushNode(st.path, Name(gs[i])), Added(st.detector, gs[i]))).res.Err?
    ensures Protocol(c, tt, x, y, gs, i, st) ==
      Impl(c, Type(gs[i]), Get(gs[i], x).value, Get(gs[i], y).value,
           State(PushNode(st.path, Name(gs[i])), Added(st.detector, gs[i])))
  {
  }

  /** A field comparator registered for (compared type, attribute name) decides the
      attribute without recursion: false ends the comparison with the name on the
      path and the detector as before; true moves on to the next attribute from
      the same state. */
  lemma ProtocolFieldOverrideDecides(c: Ctx, tt: TD, x: Value, y: Value, gs: seq<Getter>, i: nat, st: State)
    requires i < |gs| && gs[i] !in st.detector.sequence && st.detector.cycle.None?
    requires Get(gs[i], x).Ok? && Get(gs[i], y).Ok?
    requires FieldKey(tt, Name(gs[i])) in c.registry.fields
    ensures var verdict := c.registry.fields[FieldKey(tt, Name(gs[i]))](Get(gs[i], x).value, Get(gs[i], y).value);
      && (!verdict ==> Protocol(c, tt, x, y, gs, i, st) == Out(Ok(false), State(PushNode(st.path, Name(gs[i])), st.detector)))
      && (verdict ==> Protocol(c, tt, x, y, gs, i, st) == Protocol(c, tt, x, y, gs, i + 1, st))
  {
    RemovedUndoesAdded(st.detector, gs[i]);
    assert PopNode(PushNode(st.path, Name(gs[i]))) == Ok(st.path);
  }

  /** Without order leniency, an attribute compared equal recursively leaves the
      path and the detector exactly as they were. */
  lemma ProtocolEqualAttribute(c: Ctx, tt: TD, x: Value, y: Value, gs: seq<Getter>, i: nat, st: State)
    requires c.attributeProtocol && !c.orderLenient
    requires i < |gs| && gs[i] !in st.detector.sequence && st.detector.cycle.None?
    requires Get(gs[i], x).Ok? && Get(gs[i], y).Ok?
    requires FieldKey(tt, Name(gs[i])) !in c.registry.fields
    requires Impl(c, Type(gs[i]), Get(gs[i], x).value, Get(gs[i], y).value,
                  State(PushNode(st.path, Name(gs[i])), Added(st.detector, gs[i]))).res == Ok(true)
    ensures Protocol(c, tt, x, y, gs, i, st) == Protocol(c, tt, x, y, gs, i + 1, st)
  {
    var g := gs[i];
    var s1 := State(PushNode(st.path, Name(g)), Added(st.detector, g));
    FrameImpl(c, Type(g), Get(g, x).value, Get(g, y).value, s1);
    RemovedUndoesAdded(st.detector, g);
    assert PopNode(PushNode(st.path, Name(g))) == Ok(st.path);
  }

  /** An attribute compared unequal recursively ends the comparison with the
      detector as before and the path still holding what was below, then a
      segment that starts with the attribute's name (the recursion may have
      added index suffixes to it and segments above it). */
  lemma ProtocolUnequalAttribute(c: Ctx, tt: TD, x: Value, y: Value, gs: seq<Getter>, i: nat, st: State)
    requires c.attributeProtocol
    requires i < |gs| && gs[i] !in st.detector.sequence && st.detector.cycle.None?
    requires Get(gs[i], x).Ok? && Get(gs[i], y).Ok?
    requires FieldKey(tt, Name(gs[i])) !in c.registry.fields
    requires Impl(c, Type(gs[i]), Get(gs[i], x).value, Get(gs[i], y).value,
                  State(PushNode(st.path, Name(gs[i])), Added(st.detector, gs[i]))).res == Ok(false)
    ensures var o := Protocol(c, tt, x, y, gs, i, st);
      && o.res == Ok(false)
      && |o.st.path| > |st.path| && o.st.path[..|st.path|] == st.path && Name(gs[i]) <= o.st.path[|st.path|]
      && o.st.detector == st.detector
      && o.st.path == Impl(c, Type(gs[i]), Get(gs[i], x).value, Get(gs[i], y).value,
                           State(PushNode(st.path, Name(gs[i])), Added(st.detector, gs[i]))).st.path
  {
    var g := gs[i];
    var s1 := State(PushNode(st.path, Name(g)), Added(st.detector, g));
    var o := Impl(c, Type(g), Get(g, x).value, Get(g, y).value, s1);
    FrameImpl(c, Type(g), Get(g, x).value, Get(g, y).value, s1);
    RemovedUndoesAdded(st.detector, g);
    assert Protocol(c, tt, x, y, gs, i, st) == Out(Ok(false), o.st.(detector := Removed(o.st.detector)));
  }
}
