/** `DeepEquals.Stateful` (DeepEquals.java:120-458): the object a comparison runs
    on. Its fields are the registered comparators, the ignore predicates, the
    three switches, the options the extractor reads, the diagnostic path and the
    cycle detector; the comparison methods update the path and the detector in
    place. Every comparison method is proved to compute exactly what the
    corresponding function of `Engine` computes from the state before the call,
    and to leave exactly the state that function returns.

    Reflection (`table`), the runtime values' `equals` and the choice of the
    composite step are fixed when the object is made. */
module StatefulEngine {
  import opened Wrappers
  import opened Types
  import opened Values
  import opened Errors
  import opened Text
  import opened Options
  import opened Getter
  import opened Getters
  import opened Cycle
  import opened CycleDetector
  import opened Overrides
  import ObjectPath
  import Engine
  import EngineProperties
  import CompositeProperties
  import EngineFrame

  class Stateful {
    var typeTokenComparators: map<TD, Pred>
    var fieldComparators: map<FieldKey, Pred>
    var objectPath: ObjectPath.Path
    var ignoredMethods: seq<MethodFilter>
    var cycleDetector: CycleDetector
    var verbose: bool
    var orderLenient: bool
    var typeLenient: bool
    var options: Options

    const table: ClassTable
    const equals: Equality
    const attributeProtocol: bool

    ghost predicate Valid()
      reads this`cycleDetector, cycleDetector
    {
      cycleDetector.Valid()
    }

    /** What a comparison reads and does not change. */
    function Config(): Engine.Ctx
      reads this`typeTokenComparators, this`fieldComparators, this`options, this`orderLenient
    {
      Engine.Ctx(Registry(typeTokenComparators, fieldComparators), options, orderLenient,
                 table, equals, attributeProtocol)
    }

    /** What a comparison changes: the path and the detector. */
    ghost function St(): Engine.State
      reads this`objectPath, this`cycleDetector, cycleDetector
      requires Valid()
    {
      Engine.State(objectPath, cycleDetector.Abstract())
    }

    /** `new Stateful()`: nothing registered, nothing ignored, every switch off.
        The source creates its detector on each `deepEquals`; here one exists
        from the start so that the object is never without one. */
    constructor (table: ClassTable, equals: Equality, attributeProtocol: bool)
      ensures Valid()
      ensures typeTokenComparators == map[] && fieldComparators == map[]
      ensures objectPath == [] && ignoredMethods == []
      ensures !verbose && !orderLenient && !typeLenient
      ensures options == Options(false, [])
      ensures this.table == table && this.equals == equals
      ensures this.attributeProtocol == attributeProtocol
      ensures fresh(cycleDetector) && St() == Engine.State([], Fresh)
    {
      this.table := table;
      this.equals := equals;
      this.attributeProtocol := attributeProtocol;
      typeTokenComparators := map[];
      fieldComparators := map[];
      objectPath := [];
      ignoredMethods := [];
      verbose := false;
      orderLenient := false;
      typeLenient := false;
      options := Options(false, []);
      cycleDetector := new CycleDetector();
    }

    /** `ignore(first, rest...)`: both join the ignore predicates. */
    method Ignore(first: MethodFilter, rest: seq<MethodFilter>)
      modifies this`ignoredMethods
      ensures ignoredMethods == old(ignoredMethods) + [first] + rest
    {
      ignoredMethods := ignoredMethods + [first];
      ignoredMethods := ignoredMethods + rest;
    }

    /** `orderLenient()`. */
    method OrderLenient()
      modifies this`orderLenient
      ensures orderLenient
    {
      orderLenient := true;
    }

    /** `typeLenient()`: it takes effect at the next `deepEquals`, which rebuilds
        the options. */
    method TypeLenient()
      modifies this`typeLenient
      ensures typeLenient
    {
      typeLenient := true;
    }

    /** `verbose()`. */
    method Verbose()
      modifies this`verbose
      ensures verbose
    {
      verbose := true;
    }

    /** `override(comparators...)`: registers them in order; the first whose key
        is taken stops the loop with its error, and the ones before it stay. */
    method Override(cs: seq<Comparator>) returns (err: Option<Error>)
      modifies this`typeTokenComparators, this`fieldComparators
      ensures Registration(Registry(typeTokenComparators, fieldComparators), err)
              == RegisterAll(old(Registry(typeTokenComparators, fieldComparators)), cs)
    {
      var i := 0;
      while i < |cs|
        invariant i <= |cs|
        invariant RegisterAll(old(Registry(typeTokenComparators, fieldComparators)), cs)
                  == RegisterAll(Registry(typeTokenComparators, fieldComparators), cs[i..])
        decreases |cs| - i
      {
        assert cs[i..][0] == cs[i] && cs[i..][1..] == cs[i + 1..];
        match cs[i] {
          case TypeComparator(tt, p) =>
            if tt in typeTokenComparators {
              return Some(DuplicateTypeComparator(tt));
            }
            typeTokenComparators := typeTokenComparators[tt := p];
          case FieldComparator(f, p) =>
            if f in fieldComparators {
              return Some(DuplicateFieldComparator(f));
            }
            fieldComparators := fieldComparators[f := p];
        }
        i := i + 1;
      }
      assert cs[i..] == [];
      return None;
    }

    /** `pushNode(name)`. */
    method PushNode(name: string)
      modifies this`objectPath
      ensures objectPath == ObjectPath.PushNode(old(objectPath), name)
    {
      objectPath := objectPath + [name];
    }

    /** `popNode()`: the error is the exception `Stack.pop` throws. */
    method PopNode() returns (err: Option<Error>)
      modifies this`objectPath
      ensures match ObjectPath.PopNode(old(objectPath))
        case Ok(p) => err.None? && objectPath == p
        case Err(e) => err == Some(e) && objectPath == old(objectPath)
    {
      if objectPath == [] {
        return Some(EmptyStack);
      }
      objectPath := objectPath[..|objectPath| - 1];
      return None;
    }

    /** `pushIndexedNode(idx)`: pops the top segment (none on an empty stack) and
        pushes it back with `[idx]` appended. */
    method PushIndexedNode(idx: nat)
      modifies this`objectPath
      ensures objectPath == ObjectPath.PushIndexed(old(objectPath), idx)
    {
      var prefix := "";
      assert prefix + ObjectPath.IndexSuffix(idx) == ObjectPath.IndexSuffix(idx);
      if objectPath != [] {
        prefix := objectPath[|objectPath| - 1];
        objectPath := objectPath[..|objectPath| - 1];
      }
      objectPath := objectPath + [prefix + ObjectPath.IndexSuffix(idx)];
    }

    /** `popIndexedNode()`: pops the top segment and pushes back its part before
        the last '['; the error is the exception `pop` or `substring` throws. */
    method PopIndexedNode() returns (err: Option<Error>)
      modifies this`objectPath
      ensures match ObjectPath.PopIndexed(old(objectPath))
        case Ok(p) => err.None? && objectPath == p
        case Err(e) => err == Some(e) && objectPath == ObjectPath.AfterFailedPopIndexed(old(objectPath))
    {
      if objectPath == [] {
        return Some(EmptyStack);
      }
      var top := objectPath[|objectPath| - 1];
      objectPath := objectPath[..|objectPath| - 1];
      var k := LastIndexOf(top, '[');
      if k < 0 {
        return Some(IndexOutOfBounds);
      }
      objectPath := objectPath + [top[..k]];
      return None;
    }

    /** `deepEquals(tt, x, y)`: rebuilds the options from the switches, starts a
        fresh cycle detector, compares, and in verbose mode prints the path
        unless the result is true. */
    method DeepEquals(tt: TD, x: Value, y: Value) returns (result: Result<bool, Error>, printed: Option<string>)
      modifies this
      ensures Valid() && fresh(cycleDetector)
      ensures options == Options(typeLenient, ignoredMethods)
      ensures typeTokenComparators == old(typeTokenComparators)
      ensures fieldComparators == old(fieldComparators)
      ensures ignoredMethods == old(ignoredMethods)
      ensures verbose == old(verbose) && orderLenient == old(orderLenient)
      ensures typeLenient == old(typeLenient)
      ensures Engine.Outcome(result, objectPath, printed)
              == Engine.DeepEquals(Config(), verbose, tt, x, y, old(objectPath))
    {
      options := Options(typeLenient, ignoredMethods);
      cycleDetector := new CycleDetector();
      ghost var c := Config();
      ghost var s0 := St();
      assert s0 == Engine.State(old(objectPath), Fresh);
      result := DeepEqualsImpl(tt, x, y);
      assert Engine.Impl(c, tt, x, y, s0) == Engine.Out(result, St());
      if verbose && result != Ok(true) {
        printed := Some(Join(objectPath, "."));
      } else {
        printed := None;
      }
      assert Engine.DeepEquals(c, verbose, tt, x, y, old(objectPath)) == Engine.Outcome(result, objectPath, printed);
    }

    /** `deepEqualsImpl(tt, x, y)`. */
    method DeepEqualsImpl(tt: TD, x: Value, y: Value) returns (r: Result<bool, Error>)
      requires Valid()
      modifies this`objectPath, cycleDetector
      ensures Valid()
      ensures Engine.Out(r, St()) == Engine.Impl(Config(), tt, x, y, old(St()))
      decreases x, 3, 0
    {
      if x.Null? != y.Null? {
        return Ok(false);
      }
      if Identical(x, y) {
        return Ok(true);
      }
      if tt in typeTokenComparators {
        return Ok(typeTokenComparators[tt](x, y));
      }
      if Engine.ComparedWithEquals(table, tt) {
        return Ok(equals(x, y));
      }
      r := CompareStructured(tt, x, y);
    }

    /** The branches of `deepEqualsImpl` after the null, identity, type-comparator
        and `equals` checks, in the source's order. */
    method CompareStructured(tt: TD, x: Value, y: Value) returns (r: Result<bool, Error>)
      requires Valid() && EngineProperties.Undecided(Config(), tt, x, y)
      requires !Engine.ComparedWithEquals(table, tt)
      modifies this`objectPath, cycleDetector
      ensures Valid()
      ensures Engine.Out(r, St()) == Engine.Impl(Config(), tt, x, y, old(St()))
      decreases x, 2, 1
    {
      if tt.ArrayOf? {
        r := CompareArrays(tt, x, y);
      } else if tt.raw == OptionalClass {
        r := CompareOptionals(tt, x, y);
      } else if tt.raw == SetClass {
        r := CompareSets(equals, x, y);
      } else if tt.raw == MapClass {
        r := CompareMaps(tt, x, y);
      } else if tt.raw == ListClass {
        r := CompareLists(tt, x, y);
      } else if tt.raw == CollectionClass || tt.raw == IterableClass {
        r := CompareCollections(tt, x, y);
      } else {
        r := CompareDeep(tt, x, y);
      }
    }

    /** `compareArrays`: the cast to `Object[]` fails for other values and for
        arrays of a primitive component. */
    method CompareArrays(tt: TD, x: Value, y: Value) returns (r: Result<bool, Error>)
      requires Valid() && EngineProperties.Undecided(Config(), tt, x, y)
      requires Engine.KindOf(table, tt) == Engine.ArrayKind
      modifies this`objectPath, cycleDetector
      ensures Valid()
      ensures Engine.Out(r, St()) == Engine.Impl(Config(), tt, x, y, old(St()))
      decreases x, 2, 0
    {
      if !x.Arr? || !y.Arr? || Engine.IsPrimitive(tt.component) {
        return Err(ClassCast);
      }
      r := CompareSequencesOf(tt.component, x, x.elems, y.elems);
    }

    /** `compareOptionals`. */
    method CompareOptionals(tt: TD, x: Value, y: Value) returns (r: Result<bool, Error>)
      requires Valid() && EngineProperties.Undecided(Config(), tt, x, y)
      requires Engine.KindOf(table, tt) == Engine.OptionalKind
      modifies this`objectPath, cycleDetector
      ensures Valid()
      ensures Engine.Out(r, St()) == Engine.Impl(Config(), tt, x, y, old(St()))
      decreases x, 2, 0
    {
      if !x.Opt? || !y.Opt? {
        return Err(ClassCast);
      }
      if x.content.None? && y.content.None? {
        return Ok(true);
      }
      if x.content.Some? && y.content.Some? {
        var a := TypeArg(tt, 0);
        if a.None? {
          return Err(NoTypeArgument);
        }
        r := DeepEqualsImpl(a.value, x.content.value, y.content.value);
        return;
      }
      return Ok(false);
    }

    /** `compareSets`: the sizes, then every element of x looked up in y. */
    static method CompareSets(eq: Equality, x: Value, y: Value) returns (r: Result<bool, Error>)
      ensures !x.SetV? || !y.SetV? ==> r == Err(ClassCast)
      ensures x.SetV? && y.SetV? ==> r == Ok(Engine.SetsEqual(eq, x.elems, y.elems))
    {
      if !x.SetV? || !y.SetV? {
        return Err(ClassCast);
      }
      if |x.elems| != |y.elems| {
        return Ok(false);
      }
      var i := 0;
      while i < |x.elems|
        invariant i <= |x.elems|
        invariant forall k :: 0 <= k < i ==> Contains(eq, y.elems, x.elems[k])
      {
        if !Contains(eq, y.elems, x.elems[i]) {
          return Ok(false);
        }
        i := i + 1;
      }
      return Ok(true);
    }

    /** `compareMaps`: the sizes, then every key of x looked up in y and the
        values under it compared at type argument 1. */
    method CompareMaps(tt: TD, x: Value, y: Value) returns (r: Result<bool, Error>)
      requires Valid() && EngineProperties.Undecided(Config(), tt, x, y)
      requires Engine.KindOf(table, tt) == Engine.MapKind
      modifies this`objectPath, cycleDetector
      ensures Valid()
      ensures Engine.Out(r, St()) == Engine.Impl(Config(), tt, x, y, old(St()))
      decreases x, 2, 0
    {
      if !x.MapV? || !y.MapV? {
        return Err(ClassCast);
      }
      var valueType := TypeArg(tt, 1);
      if valueType.None? {
        return Err(NoTypeArgument);
      }
      var v := valueType.value;
      if |x.entries| != |y.entries| {
        return Ok(false);
      }
      var i := 0;
      while i < |x.entries|
        invariant i <= |x.entries| && Valid()
        invariant Engine.Impl(Config(), tt, x, y, old(St()))
                  == Engine.MapEntries(Config(), v, x, y.entries, i, St())
      {
        var e := x.entries[i];
        var k := KeyIndex(equals, y.entries, e.key);
        if k.None? {
          return Ok(false);
        }
        var eq := DeepEqualsImpl(v, e.value, y.entries[k.value].value);
        if eq != Ok(true) {
          return eq;
        }
        i := i + 1;
      }
      return Ok(true);
    }

    /** `compareLists`: type argument 0 first, then the casts. */
    method CompareLists(tt: TD, x: Value, y: Value) returns (r: Result<bool, Error>)
      requires Valid() && EngineProperties.Undecided(Config(), tt, x, y)
      requires Engine.KindOf(table, tt) == Engine.ListKind
      modifies this`objectPath, cycleDetector
      ensures Valid()
      ensures Engine.Out(r, St()) == Engine.Impl(Config(), tt, x, y, old(St()))
      decreases x, 2, 0
    {
      var a := TypeArg(tt, 0);
      if a.None? {
        return Err(NoTypeArgument);
      }
      if !x.ListV? || !y.ListV? {
        return Err(ClassCast);
      }
      r := CompareSequencesOf(a.value, x, x.elems, y.elems);
    }

    /** `compareCollections` and `compareIterables`: both copy the elements in
        iteration order and compare the copies as sequences. */
    method CompareCollections(tt: TD, x: Value, y: Value) returns (r: Result<bool, Error>)
      requires Valid() && EngineProperties.Undecided(Config(), tt, x, y)
      requires Engine.KindOf(table, tt) in {Engine.CollectionKind, Engine.IterableKind}
      modifies this`objectPath, cycleDetector
      ensures Valid()
      ensures Engine.Out(r, St()) == Engine.Impl(Config(), tt, x, y, old(St()))
      decreases x, 2, 0
    {
      var a := TypeArg(tt, 0);
      if a.None? {
        return Err(NoTypeArgument);
      }
      if !(x.ListV? || x.SetV?) || !(y.ListV? || y.SetV?) {
        return Err(ClassCast);
      }
      r := CompareSequencesOf(a.value, x, Elements(x), Elements(y));
    }

    /** `compareSequencesOf`. */
    method CompareSequencesOf(ct: TD, ghost x: Value, xs: seq<Value>, ys: seq<Value>)
      returns (r: Result<bool, Error>)
      requires Valid() && (x.Arr? || x.ListV? || x.SetV?) && xs == Elements(x)
      modifies this`objectPath, cycleDetector
      ensures Valid()
      ensures Engine.Out(r, St()) == Engine.Sequences(Config(), ct, x, xs, ys, old(St()))
      decreases x, 1, 1
    {
      if orderLenient {
        r := CompareSequencesOfLenient(ct, x, xs, ys);
      } else {
        r := CompareSequencesOfStrict(ct, x, xs, ys);
      }
    }

    /** `compareSequencesOfStrict`. */
    method CompareSequencesOfStrict(ct: TD, ghost x: Value, xs: seq<Value>, ys: seq<Value>)
      returns (r: Result<bool, Error>)
      requires Valid() && (x.Arr? || x.ListV? || x.SetV?) && xs == Elements(x)
      requires !orderLenient
      modifies this`objectPath, cycleDetector
      ensures Valid()
      ensures Engine.Out(r, St()) == Engine.Sequences(Config(), ct, x, xs, ys, old(St()))
      decreases x, 1, 0
    {
      ghost var c := Config();
      ghost var whole := Engine.Sequences(c, ct, x, xs, ys, old(St()));
      var i := 0;
      while i < |xs|
        invariant i <= |xs| && Valid() && Config() == c
        invariant whole == Engine.Strict(c, ct, x, xs, ys, i, St())
      {
        ghost var st := St();
        PushIndexedNode(i);
        if i >= |ys| {
          return Ok(false);
        }
        var eq := DeepEqualsImpl(ct, xs[i], ys[i]);
        assert Config() == c;
        EngineFrame.StrictAfterComparison(c, ct, x, xs, ys, i, st, Engine.Out(eq, St()));
        if eq != Ok(true) {
          return eq;
        }
        var err := PopIndexedNode();
        if err.Some? {
          return Err(err.value);
        }
        i := i + 1;
      }
      if |xs| != |ys| {
        PushIndexedNode(|xs|);
        return Ok(false);
      }
      return Ok(true);
    }

    /** `compareSequencesOfLenient`: the sizes, then each element of x claims an
        index of y; `yIndices` holds the indices already claimed. */
    method CompareSequencesOfLenient(ct: TD, ghost x: Value, xs: seq<Value>, ys: seq<Value>)
      returns (r: Result<bool, Error>)
      requires Valid() && (x.Arr? || x.ListV? || x.SetV?) && xs == Elements(x)
      requires orderLenient
      modifies this`objectPath, cycleDetector
      ensures Valid()
      ensures Engine.Out(r, St()) == Engine.Sequences(Config(), ct, x, xs, ys, old(St()))
      decreases x, 1, 0
    {
      if |xs| != |ys| {
        return Ok(false);
      }
      var yIndices: set<nat> := {};
      var i := 0;
      while i < |xs|
        invariant i <= |xs| && Valid()
        invariant Engine.Sequences(Config(), ct, x, xs, ys, old(St()))
                  == Engine.Lenient(Config(), ct, x, xs, ys, i, yIndices, St())
      {
        var f := ClaimIndex(ct, x, xs, i, ys, yIndices);
        if f.Err? {
          return Err(f.error);
        }
        if f.value.None? {
          return Ok(false);
        }
        yIndices := yIndices + {f.value.value};
        i := i + 1;
      }
      return Ok(true);
    }

    /** The scan of one element of x over the indices of y: the first unclaimed
        index whose element compares equal. */
    method ClaimIndex(ct: TD, ghost x: Value, xs: seq<Value>, i: nat, ys: seq<Value>, yIndices: set<nat>)
      returns (f: Result<Option<nat>, Error>)
      requires Valid() && (x.Arr? || x.ListV? || x.SetV?) && xs == Elements(x) && i < |xs|
      modifies this`objectPath, cycleDetector
      ensures Valid()
      ensures Engine.Found(f, St()) == Engine.Claim(Config(), ct, x, xs, i, ys, 0, yIndices, old(St()))
      decreases x, 0, 0
    {
      var j := 0;
      while j < |ys|
        invariant j <= |ys| && Valid()
        invariant Engine.Claim(Config(), ct, x, xs, i, ys, 0, yIndices, old(St()))
                  == Engine.Claim(Config(), ct, x, xs, i, ys, j, yIndices, St())
      {
        if j !in yIndices {
          var eq := DeepEqualsImpl(ct, xs[i], ys[j]);
          if eq.Err? {
            return Err(eq.error);
          }
          if eq.value {
            return Ok(Some(j));
          }
        }
        j := j + 1;
      }
      return Ok(None);
    }

    /** `compareDeep`: the getters of the compared type, then either the loop
        the source runs or the per-attribute protocol. */
    method CompareDeep(tt: TD, x: Value, y: Value) returns (r: Result<bool, Error>)
      requires Valid() && EngineProperties.Undecided(Config(), tt, x, y)
      requires Engine.KindOf(table, tt) == Engine.CompositeKind
      modifies this`objectPath, cycleDetector
      ensures Valid()
      ensures Engine.Out(r, St()) == Engine.Impl(Config(), tt, x, y, old(St()))
      decreases x, 2, 0
    {
      CompositeProperties.CompositeDispatch(Config(), tt, x, y, St());
      var getters := GettersOf(table, tt, options);
      if getters.Err? {
        return Err(getters.error);
      }
      if attributeProtocol {
        r := CompareAttributesTracked(tt, x, y, getters.value);
      } else {
        r := CompareAttributes(x, y, getters.value);
      }
    }

    /** The live body of `compareDeep`: every attribute read from both values and
        compared at its resolved type, stopping at the first that is not equal. */
    method CompareAttributes(x: Value, y: Value, gs: seq<Getter>) returns (r: Result<bool, Error>)
      requires Valid()
      modifies this`objectPath, cycleDetector
      ensures Valid()
      ensures Engine.Out(r, St()) == Engine.Deep(Config(), x, y, gs, 0, old(St()))
      decreases x, 1, 0
    {
      var i := 0;
      while i < |gs|
        invariant i <= |gs| && Valid()
        invariant Engine.Deep(Config(), x, y, gs, 0, old(St()))
                  == Engine.Deep(Config(), x, y, gs, i, St())
      {
        var g := gs[i];
        var xf := Get(g, x);
        if xf.Err? {
          return Err(xf.error);
        }
        var yf := Get(g, y);
        if yf.Err? {
          return Err(yf.error);
        }
        var eq := DeepEqualsImpl(Type(g), xf.value, yf.value);
        if eq != Ok(true) {
          return eq;
        }
        i := i + 1;
      }
      return Ok(true);
    }

    /** The per-attribute protocol of `compareDeep` (DeepEquals.java:230-255):
        the getters are taken one after the other until one of them ends the
        comparison. */
    method CompareAttributesTracked(tt: TD, x: Value, y: Value, gs: seq<Getter>) returns (r: Result<bool, Error>)
      requires Valid()
      modifies this`objectPath, cycleDetector
      ensures Valid()
      ensures Engine.Out(r, St()) == Engine.Protocol(Config(), tt, x, y, gs, 0, old(St()))
      decreases x, 1, 0
    {
      var i := 0;
      while i < |gs|
        invariant i <= |gs| && Valid()
        invariant Engine.Protocol(Config(), tt, x, y, gs, 0, old(St()))
                  == Engine.Protocol(Config(), tt, x, y, gs, i, St())
      {
        var done;
        done, r := ProtocolStep(tt, x, y, gs, i);
        if done {
          return;
        }
        i := i + 1;
      }
      return Ok(true);
    }

    /** One attribute of the protocol: the getter joins the cycle detector, its
        name is pushed, the attribute values are compared, the name is popped on
        equality and the getter leaves the detector. `done` says that this
        attribute ended the comparison with `r`. */
    method ProtocolStep(tt: TD, x: Value, y: Value, gs: seq<Getter>, i: nat) returns (done: bool, r: Result<bool, Error>)
      requires Valid() && i < |gs|
      modifies this`objectPath, cycleDetector
      ensures Valid()
      ensures done ==> Engine.Out(r, St()) == Engine.Protocol(Config(), tt, x, y, gs, i, old(St()))
      ensures !done ==> Engine.Protocol(Config(), tt, x, y, gs, i, old(St()))
                        == Engine.Protocol(Config(), tt, x, y, gs, i + 1, St())
      decreases x, 0, 2
    {
      ghost var before := St();
      ghost var c := Config();
      var stop, xf, yf := ProtocolEnter(tt, x, y, gs, i);
      assert Config() == c;
      EngineFrame.ProtocolBeforeComparison(c, tt, x, y, gs, i, before);
      if stop.Some? {
        return true, stop.value;
      }
      var eq := CompareAttribute(tt, gs[i], xf, yf);
      assert Config() == c;
      EngineFrame.ProtocolAfterComparison(c, tt, x, y, gs, i, before, Engine.Out(eq, St()));
      done, r := ProtocolLeave(tt, x, y, gs, i, before, eq);
      assert Config() == c;
    }

    /** The first half of a protocol step: the getter joins the detector (a
        cycle ends the comparison), its name is pushed and both attributes are
        read (a failing accessor ends the comparison). */
    method ProtocolEnter(tt: TD, x: Value, y: Value, gs: seq<Getter>, i: nat)
      returns (stop: Option<Result<bool, Error>>, xf: Value, yf: Value)
      requires Valid() && i < |gs|
      modifies this`objectPath, cycleDetector
      ensures Valid()
      ensures var d := Added(old(St()).detector, gs[i]);
        d.cycle.Some? ==> stop == Some(Err(CycleDetected(Report(d.cycle.value)))) && St() == old(St()).(detector := d)
      ensures var d := Added(old(St()).detector, gs[i]);
        d.cycle.None? ==> St() == Engine.State(ObjectPath.PushNode(old(St()).path, Name(gs[i])), d)
      ensures Added(old(St()).detector, gs[i]).cycle.None? && Get(gs[i], x).Err? ==> stop == Some(Err(Get(gs[i], x).error))
      ensures Added(old(St()).detector, gs[i]).cycle.None? && Get(gs[i], x).Ok? && Get(gs[i], y).Err? ==>
        stop == Some(Err(Get(gs[i], y).error))
      ensures Added(old(St()).detector, gs[i]).cycle.None? && Get(gs[i], x).Ok? && Get(gs[i], y).Ok? ==>
        stop.None? && xf == Get(gs[i], x).value && yf == Get(gs[i], y).value
    {
      var g := gs[i];
      cycleDetector.Add(g);
      var cycle := cycleDetector.GetCycle();
      if cycle.Some? {
        var report := ToString(cycle.value);
        return Some(Err(CycleDetected(report))), Null, Null;
      }
      PushNode(Name(g));
      var xr := Get(g, x);
      if xr.Err? {
        return Some(Err(xr.error)), Null, Null;
      }
      var yr := Get(g, y);
      if yr.Err? {
        return Some(Err(yr.error)), Null, Null;
      }
      return None, xr.value, yr.value;
    }

    /** The second half of a protocol step, once the attribute's values were
        compared with outcome `eq`: an error or false ends the comparison (false
        after the getter leaves the detector); true pops the name and the getter
        leaves the detector. */
    method ProtocolLeave(tt: TD, x: Value, y: Value, gs: seq<Getter>, i: nat, ghost st0: Engine.State,
                         eq: Result<bool, Error>) returns (done: bool, r: Result<bool, Error>)
      requires Valid() && i < |gs|
      requires var o := Engine.Out(eq, St());
        && (eq.Err? ==> Engine.Protocol(Config(), tt, x, y, gs, i, st0) == o)
        && (eq == Ok(false) ==>
              Engine.Protocol(Config(), tt, x, y, gs, i, st0) == Engine.Out(Ok(false), o.st.(detector := Removed(o.st.detector))))
        && (eq == Ok(true) && o.st.path == [] ==>
              Engine.Protocol(Config(), tt, x, y, gs, i, st0) == Engine.Out(Err(EmptyStack), o.st))
        && (eq == Ok(true) && o.st.path != [] ==>
              Engine.Protocol(Config(), tt, x, y, gs, i, st0) ==
              Engine.Protocol(Config(), tt, x, y, gs, i + 1,
                              Engine.State(o.st.path[..|o.st.path| - 1], Removed(o.st.detector))))
      modifies this`objectPath, cycleDetector
      ensures Valid()
      ensures done ==> Engine.Out(r, St()) == Engine.Protocol(Config(), tt, x, y, gs, i, st0)
      ensures !done ==> Engine.Protocol(Config(), tt, x, y, gs, i, st0)
                        == Engine.Protocol(Config(), tt, x, y, gs, i + 1, St())
    {
      if eq.Err? {
        return true, eq;
      }
      if !eq.value {
        cycleDetector.Remove();
        return true, Ok(false);
      }
      var err := PopNode();
      if err.Some? {
        return true, Err(err.value);
      }
      cycleDetector.Remove();
      return false, eq;
    }

    /** The comparison of one attribute's values: the field comparator
        registered for (tt, name), or else the recursive comparison at the
        getter's type. */
    method CompareAttribute(tt: TD, g: Getter, xf: Value, yf: Value) returns (eq: Result<bool, Error>)
      requires Valid()
      modifies this`objectPath, cycleDetector
      ensures Valid()
      ensures FieldKey(tt, Name(g)) in fieldComparators ==>
        eq == Ok(fieldComparators[FieldKey(tt, Name(g))](xf, yf)) && St() == old(St())
      ensures FieldKey(tt, Name(g)) !in fieldComparators ==>
        Engine.Out(eq, St()) == Engine.Impl(Config(), Type(g), xf, yf, old(St()))
      decreases xf, 4, 0
    {
      var key := FieldKey(tt, Name(g));
      if key in fieldComparators {
        eq := Ok(fieldComparators[key](xf, yf));
      } else {
        eq := DeepEqualsImpl(Type(g), xf, yf);
      }
    }
  }
}
