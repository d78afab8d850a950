/** Concrete runs of the engine on the situations the repository's own tests set
    up (src/test/java/deepequals/DeepEqualsTest.java, and its copy
    src/test/java/deepequals/test/DeepEqualsTest.java, which numbers the same
    cases one higher): what `deepEquals` returns
    and what verbose mode prints. Values that differ carry different `repr`s; an
    object freshly made by the test gets a reference number of its own. */
module Scenarios {
  import opened Wrappers
  import opened Types
  import opened Values
  import opened Errors
  import opened Options
  import opened Getter
  import opened Getters
  import opened MethodBasedGetter
  import opened FieldBasedGetter
  import opened Text
  import Cycle
  import opened ObjectPath
  import opened CycleDetector
  import opened Overrides
  import opened Engine
  import opened CompositeProperties
  import opened EngineFrame
  import opened EngineProperties

  const IntegerClass := "java.lang.Integer"
  const SupplierClass := "java.util.function.Supplier"
  const FooClass := "Foo"
  const BadFooClass := "BadFoo"
  const NodeClass := "Node"

  const Foo := Class(FooClass, [])
  const BadFoo := Class(BadFooClass, [])
  const Node := Class(NodeClass, [])
  const IntegerType := Class(IntegerClass, [])

  /** `String getString()` of the tests' `Foo`. */
  const GetString := MethodInfo(FooClass, "getString", true, false, false, false, 0, false, Class(StringClass, []))
  /** `T get()` of `Supplier<T>`. */
  const GetT := MethodInfo(SupplierClass, "get", true, false, false, false, 0, false, TypeVar(0))

  /** `String bad()` of `_14_overrideFieldComparator`'s class, which returns a
      new string on every call. */
  const Bad := MethodInfo(BadFooClass, "bad", true, false, false, false, 0, false, Class(StringClass, []))
  /** `Node getNext()` of a recursive type. */
  const GetNext := MethodInfo(NodeClass, "getNext", true, false, false, false, 0, false, Node)

  const Table: ClassTable := map[
    FooClass := ClassInfo(false, [], [GetString]),
    SupplierClass := ClassInfo(false, [], [GetT]),
    BadFooClass := ClassInfo(false, [], [Bad]),
    NodeClass := ClassInfo(false, [], [GetNext])]

  /** `equals` of the leaves: the same text. */
  const ByRepr: Equality := (a: Value, b: Value) => a.Leaf? && b.Leaf? && a.repr == b.repr

  /** A configuration with nothing registered and no ignored methods. */
  function Plain(orderLenient: bool, protocol: bool): Ctx
  {
    Ctx(Empty, Options(false, []), orderLenient, Table, ByRepr, protocol)
  }

  function Supplier(t: TD): TD { Class(SupplierClass, [t]) }

  /** A `Foo` whose `getString` returns `s`. */
  function FooWith(ref: nat, s: string): Value
  {
    Obj(ref, [Slot(Call("getString"), Returned(Leaf(ref + 1, s)))])
  }

  /** An object whose `get` returns v. */
  function Supplying(ref: nat, v: Value): Value
  {
    Obj(ref, [Slot(Call("get"), Returned(v))])
  }

  lemma SmallIndices()
    ensures IndexSuffix(0) == "[0]" && IndexSuffix(1) == "[1]"
  {
    assert Digit(0) == '0' && Digit(1) == '1';
    assert NatToString(0) == "0" && NatToString(1) == "1";
  }

  lemma JoinTwo(a: string, b: string)
    ensures Rendered([a, b]) == a + "." + b
  {
    assert [a, b][1..] == [b];
    assert Join([b], ".") == b;
    assert Join([a, b], ".") == [a, b][0] + "." + Join([a, b][1..], ".");
  }

  lemma RenderedPaths()
    ensures Rendered(["get", "getString"]) == "get.getString"
    ensures Rendered(["get[0]", "getString"]) == "get[0].getString"
  {
    JoinTwo("get", "getString");
    JoinTwo("get[0]", "getString");
  }

  lemma IndexedGet()
    ensures PushIndexed(["get"], 0) == ["get[0]"]
  {
    SmallIndices();
    assert "get" + "[0]" == "get[0]";
  }

  /** A class with no public final field and one ordinary accessor has exactly that
      accessor as its getter. */
  lemma SingleAccessor(table: ClassTable, tt: TD, m: MethodInfo)
    requires tt.Class? && tt.raw in table && table[tt.raw] == ClassInfo(false, [], [m])
    requires m.isPublic && !m.isBridge && !m.isStatic && !m.isSynthetic
    requires m.name !in ObjectClassMethodNames && m.paramCount == 0 && !m.returnsVoid
    ensures GettersOf(table, tt, Options(false, [])) == Ok([MethodGetter(m, tt)])
  {
    assert !IgnoredOn([], tt, m);
    assert Candidates([m], [], tt) == [m];
    assert MethodsToInvoke(table, tt, Options(false, [])) == Ok([m]);
    assert ToGetters([m], tt) == [MethodGetter(m, tt)];
    assert MethodBasedGetters(table, tt, Options(false, [])) == Ok([MethodGetter(m, tt)]);
    assert PublicFields(table, tt) == [];
    assert FieldBasedGetters(table, tt) == [];
    assert Union([], [MethodGetter(m, tt)]) == Union([MethodGetter(m, tt)], []);
  }

  lemma FooGetters()
    ensures GettersOf(Table, Foo, Options(false, [])) == Ok([MethodGetter(GetString, Foo)])
  {
    SingleAccessor(Table, Foo, GetString);
  }

  lemma SupplierGetters(t: TD)
    ensures GettersOf(Table, Supplier(t), Options(false, [])) == Ok([MethodGetter(GetT, Supplier(t))])
    ensures Type(MethodGetter(GetT, Supplier(t))) == t
  {
    SingleAccessor(Table, Supplier(t), GetT);
  }

  lemma BadFooGetters()
    ensures GettersOf(Table, BadFoo, Options(false, [])) == Ok([MethodGetter(Bad, BadFoo)])
  {
    SingleAccessor(Table, BadFoo, Bad);
  }

  lemma NodeGetters()
    ensures GettersOf(Table, Node, Options(false, [])) == Ok([MethodGetter(GetNext, Node)])
    ensures Type(MethodGetter(GetNext, Node)) == Node
  {
    SingleAccessor(Table, Node, GetNext);
  }

  /** The tests' classes are composite: no primitive, enum or value class, and
      none of the containers. */
  lemma TestClassesAreComposite(t: TD)
    ensures KindOf(Table, Foo) == CompositeKind
    ensures KindOf(Table, Supplier(t)) == CompositeKind
    ensures KindOf(Table, BadFoo) == CompositeKind
    ensures KindOf(Table, Node) == CompositeKind
  {
    assert |FooClass| == 3 && |SupplierClass| == 27 && |BadFooClass| == 6 && |NodeClass| == 4;
    assert Unwrap(FooClass) == FooClass && Unwrap(SupplierClass) == SupplierClass;
    assert Unwrap(BadFooClass) == BadFooClass && Unwrap(NodeClass) == NodeClass;
    assert FooClass !in Primitives && FooClass !in ValueClasses;
    assert SupplierClass !in Primitives && SupplierClass !in ValueClasses;
    assert BadFooClass !in Primitives && BadFooClass !in ValueClasses;
    assert NodeClass !in Primitives && NodeClass !in ValueClasses;
  }

  /** `_17_verbose`, first case: two `Foo`s whose strings differ. The protocol
      leaves the attribute name on the path and prints it. */
  lemma VerboseNamesTheAttribute()
    ensures DeepEquals(Plain(false, true), true, Foo, FooWith(1, "a"), FooWith(3, "b"), [])
            == Outcome(Ok(false), ["getString"], Some("getString"))
  {
    var c := Plain(false, true);
    var g := MethodGetter(GetString, Foo);
    var x, y := FooWith(1, "a"), FooWith(3, "b");
    var st := State([], Fresh);
    assert Impl(c, Foo, x, y, st) == Protocol(c, Foo, x, y, [g], 0, st) by {
      FooGetters();
      TestClassesAreComposite(Foo);
      CompositeDispatch(c, Foo, x, y, st);
    }
    var o := Protocol(c, Foo, x, y, [g], 0, st);
    assert o.res == Ok(false) && o.st.path == ["getString"] by {
      assert Get(g, x) == Ok(Leaf(2, "a")) && Get(g, y) == Ok(Leaf(4, "b"));
      var s1 := State(PushNode(st.path, Name(g)), Added(st.detector, g));
      TypeComparatorDecides(c, Type(g), Leaf(2, "a"), Leaf(4, "b"), s1);
      ProtocolUnequalAttribute(c, Foo, x, y, [g], 0, st);
    }
  }

  /** The same comparison with the live composite step: the path stays empty and
      verbose mode prints an empty line. */
  lemma VerboseLiveLeavesPathEmpty()
    ensures DeepEquals(Plain(false, false), true, Foo, FooWith(1, "a"), FooWith(3, "b"), [])
            == Outcome(Ok(false), [], Some(""))
  {
    var c := Plain(false, false);
    var g := MethodGetter(GetString, Foo);
    var x, y := FooWith(1, "a"), FooWith(3, "b");
    var st := State([], Fresh);
    assert Impl(c, Foo, x, y, st) == Deep(c, x, y, [g], 0, st) by {
      FooGetters();
      TestClassesAreComposite(Foo);
      CompositeDispatch(c, Foo, x, y, st);
    }
    assert Deep(c, x, y, [g], 0, st) == Out(Ok(false), st) by {
      assert Get(g, x) == Ok(Leaf(2, "a")) && Get(g, y) == Ok(Leaf(4, "b"));
      TypeComparatorDecides(c, Type(g), Leaf(2, "a"), Leaf(4, "b"), st);
    }
  }

  /** `_14_overrideFieldComparator`: a comparator registered for the field "bad"
      of `BadFoo` accepts any two non-empty strings. */
  const NonEmpty: Pred := (a: Value, b: Value) => a.Leaf? && b.Leaf? && |a.repr| > 0 && |b.repr| > 0

  function FieldOverridden(protocol: bool): Ctx
  {
    Ctx(Registry(map[], map[FieldKey(BadFoo, "bad") := NonEmpty]), Options(false, []), false, Table, ByRepr, protocol)
  }

  function BadFooWith(ref: nat, s: string): Value
  {
    Obj(ref, [Slot(Call("bad"), Returned(Leaf(ref + 1, s)))])
  }

  /** The live composite step never consults field comparators: two `BadFoo`s
      whose `bad` strings differ compare unequal although the registered
      comparator accepts them. */
  lemma LiveIgnoresFieldComparator()
    ensures Impl(FieldOverridden(false), BadFoo, BadFooWith(1, "u1"), BadFooWith(3, "u2"), State([], Fresh)).res == Ok(false)
  {
    var c := FieldOverridden(false);
    var g := MethodGetter(Bad, BadFoo);
    var x, y := BadFooWith(1, "u1"), BadFooWith(3, "u2");
    var st := State([], Fresh);
    assert Impl(c, BadFoo, x, y, st) == Deep(c, x, y, [g], 0, st) by {
      BadFooGetters();
      TestClassesAreComposite(Foo);
      CompositeDispatch(c, BadFoo, x, y, st);
    }
    assert Deep(c, x, y, [g], 0, st).res == Ok(false) by {
      assert Get(g, x) == Ok(Leaf(2, "u1")) && Get(g, y) == Ok(Leaf(4, "u2"));
      TypeComparatorDecides(c, Type(g), Leaf(2, "u1"), Leaf(4, "u2"), st);
    }
  }

  /** The protocol lets the registered comparator decide the attribute, and the
      comparison is true, as the test expects. */
  lemma ProtocolHonoursFieldComparator()
    ensures Impl(FieldOverridden(true), BadFoo, BadFooWith(1, "u1"), BadFooWith(3, "u2"), State([], Fresh))
            == Out(Ok(true), State([], Fresh))
  {
    var c := FieldOverridden(true);
    var g := MethodGetter(Bad, BadFoo);
    var x, y := BadFooWith(1, "u1"), BadFooWith(3, "u2");
    var st := State([], Fresh);
    assert Impl(c, BadFoo, x, y, st) == Protocol(c, BadFoo, x, y, [g], 0, st) by {
      BadFooGetters();
      TestClassesAreComposite(Foo);
      CompositeDispatch(c, BadFoo, x, y, st);
    }
    assert Get(g, x) == Ok(Leaf(2, "u1")) && Get(g, y) == Ok(Leaf(4, "u2"));
    ProtocolFieldOverrideDecides(c, BadFoo, x, y, [g], 0, st);
  }

  function ListOf(t: TD): TD { Class(ListClass, [t]) }

  lemma ListAndIntegerKinds(t: TD)
    ensures KindOf(Table, ListOf(t)) == ListKind
    ensures KindOf(Table, IntegerType) == ByEquals
  {
    assert Unwrap(ListClass) == ListClass && ListClass !in Primitives && ListClass !in ValueClasses;
    assert Unwrap(IntegerClass) == "int";
  }

  /** Two `Foo`s with different strings, compared by the protocol from any state
      the getString getter is not part of: false, with "getString" pushed on the
      path and the detector as before. */
  lemma FoosDiffer(c: Ctx, r1: nat, r2: nat, a: string, b: string, st: State)
    requires c.table == Table && c.registry == Empty && c.options == Options(false, []) && c.equals == ByRepr
    requires c.attributeProtocol
    requires r1 != r2 && a != b
    requires MethodGetter(GetString, Foo) !in st.detector.sequence && st.detector.cycle.None?
    ensures Impl(c, Foo, FooWith(r1, a), FooWith(r2, b), st) == Out(Ok(false), State(st.path + ["getString"], st.detector))
  {
    var g := MethodGetter(GetString, Foo);
    var x, y := FooWith(r1, a), FooWith(r2, b);
    assert Impl(c, Foo, x, y, st) == Protocol(c, Foo, x, y, [g], 0, st) by {
      FooGetters();
      TestClassesAreComposite(Foo);
      CompositeDispatch(c, Foo, x, y, st);
    }
    assert Get(g, x) == Ok(Leaf(r1 + 1, a)) && Get(g, y) == Ok(Leaf(r2 + 1, b));
    var s1 := State(PushNode(st.path, Name(g)), Added(st.detector, g));
    TypeComparatorDecides(c, Type(g), Leaf(r1 + 1, a), Leaf(r2 + 1, b), s1);
    ProtocolUnequalAttribute(c, Foo, x, y, [g], 0, st);
  }

  /** Two suppliers whose supplied values compare unequal from the state the
      protocol reaches inside `get`: the comparison is false, with the path the
      inner comparison left and the detector fresh again. */
  lemma SuppliersDiffer(c: Ctx, t: TD, r1: nat, r2: nat, v1: Value, v2: Value)
    requires c.table == Table && c.registry == Empty && c.options == Options(false, []) && c.attributeProtocol
    requires r1 != r2
    requires Impl(c, t, v1, v2, State(["get"], DetectorState([MethodGetter(GetT, Supplier(t))], None))).res == Ok(false)
    ensures Impl(c, Supplier(t), Supplying(r1, v1), Supplying(r2, v2), State([], Fresh)) ==
      Out(Ok(false), State(Impl(c, t, v1, v2, State(["get"], DetectorState([MethodGetter(GetT, Supplier(t))], None))).st.path, Fresh))
  {
    var g := MethodGetter(GetT, Supplier(t));
    var x, y := Supplying(r1, v1), Supplying(r2, v2);
    var st := State([], Fresh);
    SupplierGetters(t);
    TestClassesAreComposite(t);
    CompositeDispatch(c, Supplier(t), x, y, st);
    assert Get(g, x) == Ok(v1) && Get(g, y) == Ok(v2);
    assert PushNode(st.path, Name(g)) == ["get"];
    assert Added(st.detector, g) == DetectorState([g], None);
    ProtocolUnequalAttribute(c, Supplier(t), x, y, [g], 0, st);
  }

  /** Two distinct one-element lists are compared by the strict algorithm. */
  lemma SingletonListsAreStrict(c: Ctx, t: TD, r1: nat, r2: nat, v1: Value, v2: Value, st: State)
    requires KindOf(c.table, ListOf(t)) == ListKind && ListOf(t) !in c.registry.types && !c.orderLenient
    requires r1 != r2
    ensures Impl(c, ListOf(t), ListV(r1, [v1]), ListV(r2, [v2]), st) == Strict(c, t, ListV(r1, [v1]), [v1], [v2], 0, st)
  {
    ListDispatch(c, ListOf(t), ListV(r1, [v1]), ListV(r2, [v2]), st);
  }

  /** `_17_verbose`, `Supplier<Foo>`: the path runs through both attributes. */
  lemma VerboseNestedPath()
    ensures DeepEquals(Plain(false, true), true, Supplier(Foo),
                       Supplying(1, FooWith(2, "a")), Supplying(4, FooWith(5, "b")), [])
            == Outcome(Ok(false), ["get", "getString"], Some("get.getString"))
  {
    var d := DetectorState([MethodGetter(GetT, Supplier(Foo))], None);
    FoosDiffer(Plain(false, true), 2, 5, "a", "b", State(["get"], d));
    SuppliersDiffer(Plain(false, true), Foo, 1, 4, FooWith(2, "a"), FooWith(5, "b"));
    RenderedPaths();
  }

  /** Lists holding one `Foo` each, with different strings, compared below a
      "get" segment. */
  lemma FooListsDiffer(c: Ctx, d: DetectorState)
    requires c.table == Table && c.registry == Empty && c.options == Options(false, []) && c.equals == ByRepr
    requires c.attributeProtocol && !c.orderLenient
    requires MethodGetter(GetString, Foo) !in d.sequence && d.cycle.None?
    ensures Impl(c, ListOf(Foo), ListV(2, [FooWith(3, "a")]), ListV(6, [FooWith(7, "b")]), State(["get"], d))
            == Out(Ok(false), State(["get[0]", "getString"], d))
  {
    IndexedGet();
    FoosDiffer(c, 3, 7, "a", "b", State(["get[0]"], d));
    ListAndIntegerKinds(Foo);
    SingletonListsAreStrict(c, Foo, 2, 6, FooWith(3, "a"), FooWith(7, "b"), State(["get"], d));
    StrictStepOther(c, Foo, ListV(2, [FooWith(3, "a")]), [FooWith(3, "a")], [FooWith(7, "b")], 0, State(["get"], d));
  }

  /** `_17_verbose`, `Supplier<List<Foo>>`: the list index is appended to the
      attribute's segment. */
  lemma VerboseIndexedPath()
    ensures DeepEquals(Plain(false, true), true, Supplier(ListOf(Foo)),
                       Supplying(1, ListV(2, [FooWith(3, "a")])), Supplying(5, ListV(6, [FooWith(7, "b")])), [])
            == Outcome(Ok(false), ["get[0]", "getString"], Some("get[0].getString"))
  {
    var c := Plain(false, true);
    FooListsDiffer(c, DetectorState([MethodGetter(GetT, Supplier(ListOf(Foo)))], None));
    SuppliersDiffer(c, ListOf(Foo), 1, 5, ListV(2, [FooWith(3, "a")]), ListV(6, [FooWith(7, "b")]));
    RenderedPaths();
  }

  /** `_17_verbose`, `List<Integer>` of (1, 2) against (1): the index where y
      runs out. */
  lemma VerboseShorterList()
    ensures DeepEquals(Plain(false, false), true, ListOf(IntegerType),
                       ListV(1, [Leaf(2, "1"), Leaf(3, "2")]), ListV(4, [Leaf(5, "1")]), [])
            == Outcome(Ok(false), ["[1]"], Some("[1]"))
  {
    var c := Plain(false, false);
    var x, y := ListV(1, [Leaf(2, "1"), Leaf(3, "2")]), ListV(4, [Leaf(5, "1")]);
    var st0 := State([], Fresh);
    ListAndIntegerKinds(IntegerType);
    assert Impl(c, ListOf(IntegerType), x, y, st0) == Strict(c, IntegerType, x, x.elems, y.elems, 0, st0);
    SmallIndices();
    assert PushIndexed([], 0) == ["[0]"];
    var o := Impl(c, IntegerType, Leaf(2, "1"), Leaf(5, "1"), State(["[0]"], Fresh));
    TypeComparatorDecides(c, IntegerType, Leaf(2, "1"), Leaf(5, "1"), State(["[0]"], Fresh));
    assert o == Out(Ok(true), State(["[0]"], Fresh));
    StrictAfterComparison(c, IntegerType, x, x.elems, y.elems, 0, st0, o);
    PopIndexedAfterPushIndexed([], 0);
    PushIndexedOnEmptySegment(1);
    var last := Strict(c, IntegerType, x, x.elems, y.elems, 1, State([""], Fresh));
    assert Strict(c, IntegerType, x, x.elems, y.elems, 0, st0) == last;
    assert last == Out(Ok(false), State(["[1]"], Fresh));
    assert Rendered(["[1]"]) == "[1]";
  }

  /** A `Node` whose `getNext` returns `next`. */
  function NodeWith(ref: nat, next: Value): Value
  {
    Obj(ref, [Slot(Call("getNext"), Returned(next))])
  }

  const NextGetter := MethodGetter(GetNext, Node)

  /** The getNext getter reads a node's next node. */
  lemma NodeNext(ref: nat, next: Value)
    ensures Get(NextGetter, NodeWith(ref, next)) == Ok(next)
  {
    assert SlotIndex(NodeWith(ref, next).slots, AccessOf(NextGetter)) == Some(0);
  }

  /** The cycle report for a chain holding only the getNext getter. */
  const NextCycle: Result<bool, Error> := Err(CycleDetected(Cycle.Report(Cycle.Cycle([NextGetter], 0))))

  /** Inside the first `getNext`, comparing the next nodes hits the getter already
      on the chain. */
  lemma NextNodesAreACycle(c: Ctx, st: State)
    requires c.table == Table && c.registry == Empty && c.options == Options(false, []) && c.attributeProtocol
    requires st.detector == DetectorState([NextGetter], None)
    ensures Impl(c, Node, NodeWith(2, Null), NodeWith(4, Null), st).res == NextCycle
  {
    NodeGetters();
    TestClassesAreComposite(Node);
    CompositeDispatch(c, Node, NodeWith(2, Null), NodeWith(4, Null), st);
    ProtocolCycle(c, Node, NodeWith(2, Null), NodeWith(4, Null), [NextGetter], 0, st);
  }

  /** Two finite two-node chains of a recursive type are reported as a cycle by
      the protocol: getter identity is the method and the type it came from, so
      the same getter at the next depth is taken for a repetition. */
  lemma RecursiveTypeReportsCycle()
    ensures Impl(Plain(false, true), Node, NodeWith(1, NodeWith(2, Null)), NodeWith(3, NodeWith(4, Null)), State([], Fresh)).res
            == NextCycle
  {
    var c := Plain(false, true);
    var x, y := NodeWith(1, NodeWith(2, Null)), NodeWith(3, NodeWith(4, Null));
    var st := State([], Fresh);
    NodeGetters();
    TestClassesAreComposite(Node);
    CompositeDispatch(c, Node, x, y, st);
    NodeNext(1, NodeWith(2, Null));
    NodeNext(3, NodeWith(4, Null));
    var s1 := State(PushNode(st.path, Name(NextGetter)), Added(st.detector, NextGetter));
    assert Added(Fresh, NextGetter) == DetectorState([NextGetter], None);
    NextNodesAreACycle(c, s1);
    assert FieldKey(Node, Name(NextGetter)) !in c.registry.fields;
    ProtocolNestedFailure(c, Node, x, y, [NextGetter], 0, st);
  }

  /** The live composite step compares the same chains attribute by attribute
      down to the null ends and finds them equal. */
  lemma RecursiveTypeLive()
    ensures Impl(Plain(false, false), Node, NodeWith(1, NodeWith(2, Null)), NodeWith(3, NodeWith(4, Null)), State([], Fresh))
            == Out(Ok(true), State([], Fresh))
  {
    var c := Plain(false, false);
    var st := State([], Fresh);
    NullAndIdentity(c, Node, Null, Null, st);
    LiveNodes(2, 4, Null, Null, st);
    LiveNodes(1, 3, NodeWith(2, Null), NodeWith(4, Null), st);
  }

  /** The live composite step on two distinct nodes whose next nodes compare
      equal without changing the state. */
  lemma LiveNodes(r1: nat, r2: nat, nx: Value, ny: Value, st: State)
    requires r1 != r2
    requires Impl(Plain(false, false), Node, nx, ny, st) == Out(Ok(true), st)
    ensures Impl(Plain(false, false), Node, NodeWith(r1, nx), NodeWith(r2, ny), st) == Out(Ok(true), st)
  {
    var c := Plain(false, false);
    var x, y := NodeWith(r1, nx), NodeWith(r2, ny);
    NodeGetters();
    TestClassesAreComposite(Node);
    CompositeDispatch(c, Node, x, y, st);
    NodeNext(r1, nx);
    NodeNext(r2, ny);
    assert Deep(c, x, y, [NextGetter], 0, st) == Deep(c, x, y, [NextGetter], 1, st);
  }

  /** `verboseWhenExceptionsAreThrown`: an accessor that throws. The protocol has
      already pushed the attribute's name and prints it. */
  lemma VerboseAccessorFailure()
    ensures DeepEquals(Plain(false, true), true, Foo,
                       Obj(1, [Slot(Call("getString"), Threw)]), Obj(2, [Slot(Call("getString"), Threw)]), [])
            == Outcome(Err(AccessorFailure(FooClass, "getString")), ["getString"], Some("getString"))
  {
    var c := Plain(false, true);
    var x, y := Obj(1, [Slot(Call("getString"), Threw)]), Obj(2, [Slot(Call("getString"), Threw)]);
    var st := State([], Fresh);
    var o := Impl(c, Foo, x, y, st);
    assert o.res == Err(AccessorFailure(FooClass, "getString")) && o.st.path == ["getString"] by {
      ThrowingFoo(x);
      ThrowingFoo(y);
      FooGetters();
      TestClassesAreComposite(Foo);
      CompositeDispatch(c, Foo, x, y, st);
      ProtocolAccessorFailure(c, Foo, x, y, [MethodGetter(GetString, Foo)], 0, st);
    }
    assert Rendered(["getString"]) == "getString";
  }

  /** A `Foo` whose `getString` throws fails to give the attribute. */
  lemma ThrowingFoo(x: Value)
    requires x.Obj? && x.slots == [Slot(Call("getString"), Threw)]
    ensures Get(MethodGetter(GetString, Foo), x) == Err(AccessorFailure(FooClass, "getString"))
  {
    assert SlotIndex(x.slots, AccessOf(MethodGetter(GetString, Foo))) == Some(0);
  }
}
