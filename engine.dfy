/** The comparison engine of `DeepEquals.Stateful` (DeepEquals.java:205-380,
    430-457) as functions of an explicit state: the diagnostic path and the cycle
    detector go in with every call and come out with its result. A thrown
    exception is an `Err` result; the state it carries is the state at the throw.

    Two forms of the composite step are modelled: the one the source runs
    (`compareDeep`, DeepEquals.java:220-228), and the per-attribute protocol the
    source keeps beside it in a comment (DeepEquals.java:230-255), which also
    maintains the path and the cycle detector and consults field comparators.
    `Ctx.attributeProtocol` selects the second. */
module Engine {
  import opened Wrappers
  import opened Types
  import opened Values
  import opened Errors
  import opened Options
  import opened Getter
  import opened Getters
  import opened ObjectPath
  import opened Cycle
  import opened CycleDetector
  import opened Overrides

  /** What a comparison reads and does not change: the registered comparators,
      the options, order leniency, reflection, the runtime values' `equals`, and
      which composite step is in force. */
  datatype Ctx = Ctx(
    registry: Registry,
    options: Options,
    orderLenient: bool,
    table: ClassTable,
    equals: Equality,
    attributeProtocol: bool)

  /** `objectPath` and `cycleDetector`. */
  datatype State = State(path: Path, detector: DetectorState)

  datatype Out = Out(res: Result<bool, Error>, st: State)

  /** `compareWithEquals(tt)`. */
  predicate ComparedWithEquals(table: ClassTable, tt: TD)
  {
    match tt
    case TypeVar(_) => true
    case ArrayOf(_) => false
    case Class(raw, _) =>
      var t := Unwrap(raw);
      t in Primitives || (t in table && table[t].isEnum) || t in ValueClasses
  }

  /** A component type whose arrays are not `Object[]`. */
  predicate IsPrimitive(tt: TD)
  {
    tt.Class? && tt.raw in Primitives
  }

  /** The branch of `deepEqualsImpl` a declared type selects, once the null,
      identity and type-comparator checks have not decided. */
  datatype Kind = ByEquals | ArrayKind | OptionalKind | SetKind | MapKind
                | ListKind | CollectionKind | IterableKind | CompositeKind

  function KindOf(table: ClassTable, tt: TD): (k: Kind)
    ensures k == ArrayKind ==> tt.ArrayOf?
  {
    if ComparedWithEquals(table, tt) then ByEquals
    else if tt.ArrayOf? then ArrayKind
    else if tt.raw == OptionalClass then OptionalKind
    else if tt.raw == SetClass then SetKind
    else if tt.raw == MapClass then MapKind
    else if tt.raw == ListClass then ListKind
    else if tt.raw == CollectionClass then CollectionKind
    else if tt.raw == IterableClass then IterableKind
    else CompositeKind
  }

  /** `compareSets`: same size and every element of x contained in y. Shallow:
      containment uses the sets' own equality. */
  predicate SetsEqual(eq: Equality, xs: seq<Value>, ys: seq<Value>)
  {
    |xs| == |ys| && forall i :: 0 <= i < |xs| ==> Contains(eq, ys, xs[i])
  }

  /** `deepEqualsImpl(tt, x, y)`. */
  function Impl(c: Ctx, tt: TD, x: Value, y: Value, st: State): Out
    decreases x, 2, 0
  {
    if x.Null? != y.Null? then Out(Ok(false), st)
    else if Identical(x, y) then Out(Ok(true), st)
    else if tt in c.registry.types then Out(Ok(c.registry.types[tt](x, y)), st)
    else match KindOf(c.table, tt)
      case ByEquals => Out(Ok(c.equals(x, y)), st)
      case ArrayKind =>
        if !x.Arr? || !y.Arr? || IsPrimitive(tt.component) then Out(Err(ClassCast), st)
        else Sequences(c, tt.component, x, x.elems, y.elems, st)
      case OptionalKind =>
        if !x.Opt? || !y.Opt? then Out(Err(ClassCast), st)
        else if x.content.None? && y.content.None? then Out(Ok(true), st)
        else if x.content.Some? && y.content.Some? then
          (match TypeArg(tt, 0)
           case None => Out(Err(NoTypeArgument), st)
           case Some(a) => Impl(c, a, x.content.value, y.content.value, st))
        else Out(Ok(false), st)
      case SetKind =>
        if !x.SetV? || !y.SetV? then Out(Err(ClassCast), st)
        else Out(Ok(SetsEqual(c.equals, x.elems, y.elems)), st)
      case MapKind =>
        if !x.MapV? || !y.MapV? then Out(Err(ClassCast), st)
        else (match TypeArg(tt, 1)
          case None => Out(Err(NoTypeArgument), st)
          case Some(v) =>
            if |x.entries| != |y.entries| then Out(Ok(false), st)
            else MapEntries(c, v, x, y.entries, 0, st))
      case ListKind =>
        (match TypeArg(tt, 0)
        case None => Out(Err(NoTypeArgument), st)
        case Some(a) =>
          if !x.ListV? || !y.ListV? then Out(Err(ClassCast), st)
          else Sequences(c, a, x, x.elems, y.elems, st))
      case CollectionKind =>
        (match TypeArg(tt, 0)
        case None => Out(Err(NoTypeArgument), st)
        case Some(a) =>
          if !(x.ListV? || x.SetV?) || !(y.ListV? || y.SetV?) then Out(Err(ClassCast), st)
          else Sequences(c, a, x, Elements(x), Elements(y), st))
      case IterableKind =>
        (match TypeArg(tt, 0)
        case None => Out(Err(NoTypeArgument), st)
        case Some(a) =>
          if !(x.ListV? || x.SetV?) || !(y.ListV? || y.SetV?) then Out(Err(ClassCast), st)
          else Sequences(c, a, x, Elements(x), Elements(y), st))
      case CompositeKind =>
        (match GettersOf(c.table, tt, c.options)
         case Err(e) => Out(Err(e), st)
         case Ok(gs) =>
           if c.attributeProtocol then Protocol(c, tt, x, y, gs, 0, st)
           else Deep(c, x, y, gs, 0, st))
  }

  /** `compareMaps` after the size check: every key of x is a key of y and the
      values under it compare equal. */
  function MapEntries(c: Ctx, v: TD, x: Value, ys: seq<Entry>, i: nat, st: State): Out
    requires x.MapV? && i <= |x.entries|
    decreases x, 1, |x.entries| - i
  {
    if i == |x.entries| then Out(Ok(true), st)
    else
      var e := x.entries[i];
      match KeyIndex(c.equals, ys, e.key)
      case None => Out(Ok(false), st)
      case Some(k) =>
        var o := Impl(c, v, e.value, ys[k].value, st);
        if o.res == Ok(true) then MapEntries(c, v, x, ys, i + 1, o.st) else o
  }

  /** `compareSequencesOf`: order-lenient or strict. */
  function Sequences(c: Ctx, ct: TD, ghost x: Value, xs: seq<Value>, ys: seq<Value>, st: State): Out
    requires (x.Arr? || x.ListV? || x.SetV?) && xs == Elements(x)
    decreases x, 1, |xs| + 1
  {
    if c.orderLenient then
      if |xs| != |ys| then Out(Ok(false), st)
      else Lenient(c, ct, x, xs, ys, 0, {}, st)
    else Strict(c, ct, x, xs, ys, 0, st)
  }

  /** `compareSequencesOfStrict` from index i on: each index is pushed onto the
      path, kept there when the elements differ (or y has no element there), and
      popped when they are equal; when all of x matched but the lengths differ,
      the index |x| is pushed. */
  function Strict(c: Ctx, ct: TD, ghost x: Value, xs: seq<Value>, ys: seq<Value>, i: nat, st: State): Out
    requires (x.Arr? || x.ListV? || x.SetV?) && xs == Elements(x) && i <= |xs|
    decreases x, 1, |xs| - i
  {
    if i == |xs| then
      if |xs| != |ys| then Out(Ok(false), st.(path := PushIndexed(st.path, |xs|)))
      else Out(Ok(true), st)
    else
      var pushed := st.(path := PushIndexed(st.path, i));
      if i >= |ys| then Out(Ok(false), pushed)
      else
        var o := Impl(c, ct, xs[i], ys[i], pushed);
        if o.res != Ok(true) then o
        else match PopIndexed(o.st.path)
          case Err(e) => Out(Err(e), o.st.(path := AfterFailedPopIndexed(o.st.path)))
          case Ok(p) => Strict(c, ct, x, xs, ys, i + 1, o.st.(path := p))
  }

  /** `compareSequencesOfLenient` from element i of x on (sizes already equal):
      each element of x claims the first unclaimed element of y it compares equal
      to; the comparison fails at the first element that finds none. */
  function Lenient(c: Ctx, ct: TD, ghost x: Value, xs: seq<Value>, ys: seq<Value>, i: nat,
                   claimed: set<nat>, st: State): Out
    requires (x.Arr? || x.ListV? || x.SetV?) && xs == Elements(x) && i <= |xs|
    decreases x, 1, |xs| - i
  {
    if i == |xs| then Out(Ok(true), st)
    else
      var f := Claim(c, ct, x, xs, i, ys, 0, claimed, st);
      match f.res
      case Err(e) => Out(Err(e), f.st)
      case Ok(None) => Out(Ok(false), f.st)
      case Ok(Some(j)) => Lenient(c, ct, x, xs, ys, i + 1, claimed + {j}, f.st)
  }

  datatype Found = Found(res: Result<Option<nat>, Error>, st: State)

  /** The scan over y's indices from j on for element i of x: the first index not
      yet claimed whose element compares equal. */
  function Claim(c: Ctx, ct: TD, ghost x: Value, xs: seq<Value>, i: nat, ys: seq<Value>, j: nat,
                 claimed: set<nat>, st: State): (f: Found)
    requires (x.Arr? || x.ListV? || x.SetV?) && xs == Elements(x) && i < |xs| && j <= |ys|
    ensures f.res.Ok? && f.res.value.Some? ==>
      j <= f.res.value.value < |ys| && f.res.value.value !in claimed
    decreases x, 0, |ys| - j
  {
    if j == |ys| then Found(Ok(None), st)
    else if j in claimed then Claim(c, ct, x, xs, i, ys, j + 1, claimed, st)
    else
      var o := Impl(c, ct, xs[i], ys[j], st);
      match o.res
      case Err(e) => Found(Err(e), o.st)
      case Ok(true) => Found(Ok(Some(j)), o.st)
      case Ok(false) => Claim(c, ct, x, xs, i, ys, j + 1, claimed, o.st)
  }

  /** `compareDeep` as the source runs it, from getter i on: each attribute of x
      and y is read and compared at its resolved type; the first difference or
      failure ends the comparison. */
  function Deep(c: Ctx, x: Value, y: Value, gs: seq<Getter>, i: nat, st: State): Out
    requires i <= |gs|
    decreases x, 1, |gs| - i
  {
    if i == |gs| then Out(Ok(true), st)
    else
      var g := gs[i];
      match Get(g, x)
      case Err(e) => Out(Err(e), st)
      case Ok(xf) =>
        match Get(g, y)
        case Err(e) => Out(Err(e), st)
        case Ok(yf) =>
          var o := Impl(c, Type(g), xf, yf, st);
          if o.res == Ok(true) then Deep(c, x, y, gs, i + 1, o.st) else o
  }

  /** The per-attribute protocol from getter i on: the getter joins the cycle
      detector (a getter already on the chain is a cycle error), its name is
      pushed onto the path, the attribute values are compared by the field
      comparator registered for (compared type, name) or else recursively; on
      equality the name is popped; the getter always leaves the detector.
      The commented source walks `Method`s; here it walks the current getters,
      public final fields included, and registers the getters themselves. */
  function Protocol(c: Ctx, tt: TD, x: Value, y: Value, gs: seq<Getter>, i: nat, st: State): Out
    requires i <= |gs|
    decreases x, 1, |gs| - i
  {
    if i == |gs| then Out(Ok(true), st)
    else
      var g := gs[i];
      var d := Added(st.detector, g);
      if d.cycle.Some? then Out(Err(CycleDetected(Report(d.cycle.value))), st.(detector := d))
      else
        var s1 := State(PushNode(st.path, Name(g)), d);
        match Get(g, x)
        case Err(e) => Out(Err(e), s1)
        case Ok(xf) =>
          match Get(g, y)
          case Err(e) => Out(Err(e), s1)
          case Ok(yf) =>
            var key := FieldKey(tt, Name(g));
            var o := if key in c.registry.fields then Out(Ok(c.registry.fields[key](xf, yf)), s1)
                     else Impl(c, Type(g), xf, yf, s1);
            match o.res
            case Err(_) => o
            case Ok(false) => Out(Ok(false), o.st.(detector := Removed(o.st.detector)))
            case Ok(true) =>
              match PopNode(o.st.path)
              case Err(e) => Out(Err(e), o.st)
              case Ok(p) => Protocol(c, tt, x, y, gs, i + 1, State(p, Removed(o.st.detector)))
  }

  /** What `deepEquals(tt, x, y)` returns, the path it leaves, and what it prints. */
  datatype Outcome = Outcome(res: Result<bool, Error>, path: Path, printed: Option<string>)

  /** `deepEquals(tt, x, y)` on an instance whose path is `path`: a fresh cycle
      detector, then `deepEqualsImpl`; in verbose mode the path is printed
      whenever the result is not true, exceptions included. */
  function DeepEquals(c: Ctx, verbose: bool, tt: TD, x: Value, y: Value, path: Path): (r: Outcome)
    ensures r.printed.Some? <==> verbose && r.res != Ok(true)
    ensures r.printed.Some? ==> r.printed.value == Rendered(r.path)
  {
    var o := Impl(c, tt, x, y, State(path, Fresh));
    Outcome(o.res, o.st.path, if verbose && o.res != Ok(true) then Some(Rendered(o.st.path)) else None)
  }
}
