/** `MethodBasedGetter.methodBasedGetters`: the methods of a composite type that are
    compared, and the errors raised for methods that cannot be (MethodBasedGetter.java:
    73-79, 105-140, 148-156). A class's `methods` list holds every method it has,
    inherited ones included; `Class.getMethods()` is its public part. */
module MethodBasedGetter {
  import opened Wrappers
  import opened Types
  import opened Errors
  import opened Options
  import opened Getter

  /** The names of the public methods of `java.lang.Object`. */
  const ObjectClassMethodNames: set<string> :=
    {"equals", "getClass", "hashCode", "notify", "notifyAll", "toString", "wait"}

  /** `ignoredOn(tt, options)`: some ignore predicate holds for (tt, m). */
  predicate IgnoredOn(ignored: seq<MethodFilter>, tt: TD, m: MethodInfo)
  {
    exists i :: 0 <= i < |ignored| && ignored[i](tt, m)
  }

  /** The first filter stage: public, not a bridge, not static, not named like a
      method of Object, not ignored. */
  predicate IsCandidate(ignored: seq<MethodFilter>, tt: TD, m: MethodInfo)
  {
    m.isPublic && !m.isBridge && !m.isStatic && m.name !in ObjectClassMethodNames
    && !IgnoredOn(ignored, tt, m)
  }

  /** `WithArguments.or(ReturningVoid)`: a method that cannot serve as a getter. */
  predicate IsMisshapen(m: MethodInfo)
  {
    m.paramCount != 0 || m.returnsVoid
  }

  function Candidates(ms: seq<MethodInfo>, ignored: seq<MethodFilter>, tt: TD): (r: seq<MethodInfo>)
    ensures forall m :: m in r <==> m in ms && IsCandidate(ignored, tt, m)
  {
    if ms == [] then []
    else (if IsCandidate(ignored, tt, ms[0]) then [ms[0]] else []) + Candidates(ms[1..], ignored, tt)
  }

  /** `excludeMethods(result, WithArguments.or(ReturningVoid))`. */
  function WellShaped(ms: seq<MethodInfo>): (r: seq<MethodInfo>)
    ensures forall m :: m in r <==> m in ms && !IsMisshapen(m)
  {
    if ms == [] then []
    else (if IsMisshapen(ms[0]) then [] else [ms[0]]) + WellShaped(ms[1..])
  }

  /** The synthetic method reported by `syntheticMethodsAreNotSupported`; the source
      reports any one of them, the model the first in table order. */
  function FirstSynthetic(ms: seq<MethodInfo>): (r: Option<MethodInfo>)
    ensures r.None? <==> forall m :: m in ms ==> !m.isSynthetic
    ensures r.Some? ==> r.value in ms && r.value.isSynthetic
  {
    if ms == [] then None
    else if ms[0].isSynthetic then Some(ms[0])
    else FirstSynthetic(ms[1..])
  }

  /** `methodsToInvoke(tt, options)`. */
  function MethodsToInvoke(table: ClassTable, tt: TD, options: Options): (r: Result<seq<MethodInfo>, Error>)
    ensures var cs := Candidates(ClassOf(table, tt).methods, options.ignoredMethods, tt);
      && ((exists m :: m in cs && m.isSynthetic) <==> r.Err? && r.error.SyntheticMethod?)
      && (r.Err? && r.error.SyntheticMethod? ==>
            exists m :: m in cs && m.isSynthetic && r.error.methodName == m.name)
      && (!options.typeLenient && (forall m :: m in cs ==> !m.isSynthetic) ==>
            if exists m :: m in cs && m.paramCount != 0
            then r == Err(IllegalShape(RawName(tt), WithArguments))
            else if exists m :: m in cs && m.returnsVoid
            then r == Err(IllegalShape(RawName(tt), ReturningVoid))
            else r == Ok(cs))
      && (options.typeLenient && (forall m :: m in cs ==> !m.isSynthetic) ==> r == Ok(WellShaped(cs)))
    ensures r.Ok? ==> forall m :: m in r.value <==>
      m in ClassOf(table, tt).methods && IsCandidate(options.ignoredMethods, tt, m) && !IsMisshapen(m)
    ensures r.Err? ==> r.error.SyntheticMethod? || r.error.IllegalShape?
  {
    var cs := Candidates(ClassOf(table, tt).methods, options.ignoredMethods, tt);
    match FirstSynthetic(cs)
    case Some(m) => Err(SyntheticMethod(m.name))
    case None =>
      if !options.typeLenient then
        if exists m :: m in cs && m.paramCount != 0 then Err(IllegalShape(RawName(tt), WithArguments))
        else if exists m :: m in cs && m.returnsVoid then Err(IllegalShape(RawName(tt), ReturningVoid))
        else Ok(cs)
      else Ok(WellShaped(cs))
  }

  function ToGetters(ms: seq<MethodInfo>, tt: TD): (r: seq<Getter>)
    ensures |r| == |ms|
    ensures forall i :: 0 <= i < |ms| ==> r[i] == MethodGetter(ms[i], tt)
  {
    if ms == [] then [] else [MethodGetter(ms[0], tt)] + ToGetters(ms[1..], tt)
  }

  /** `methodBasedGetters(tt, options)`: one method getter per method to invoke. */
  function MethodBasedGetters(table: ClassTable, tt: TD, options: Options): (r: Result<seq<Getter>, Error>)
    ensures r.Ok? <==> MethodsToInvoke(table, tt, options).Ok?
    ensures r.Err? ==> r.error == MethodsToInvoke(table, tt, options).error
    ensures r.Ok? ==> forall g :: g in r.value <==>
      exists m :: m in ClassOf(table, tt).methods && IsCandidate(options.ignoredMethods, tt, m)
                  && !IsMisshapen(m) && g == MethodGetter(m, tt)
  {
    match MethodsToInvoke(table, tt, options)
    case Err(e) => Err(e)
    case Ok(ms) =>
      var gs := ToGetters(ms, tt);
      assert forall g :: g in gs ==> exists i :: 0 <= i < |ms| && g == MethodGetter(ms[i], tt);
      Ok(gs)
  }

  /** With type leniency the extraction never fails on shape, only on synthetic
      methods; without it, every candidate method must take no arguments and
      return a value. */
  lemma LenientExtractionFailsOnlyOnSynthetic(table: ClassTable, tt: TD, options: Options)
    requires options.typeLenient
    ensures MethodBasedGetters(table, tt, options).Err? ==>
      MethodBasedGetters(table, tt, options).error.SyntheticMethod?
  {
  }

  /** An ignored method never becomes a getter, whatever the mode. */
  lemma IgnoredMethodIsNotAGetter(table: ClassTable, tt: TD, options: Options, m: MethodInfo)
    requires IgnoredOn(options.ignoredMethods, tt, m)
    requires MethodBasedGetters(table, tt, options).Ok?
    ensures MethodGetter(m, tt) !in MethodBasedGetters(table, tt, options).value
  {
  }

  /** Ignoring a method a class would otherwise be refused for lets the strict
      extraction succeed: the refusal is about the candidates only. */
  lemma StrictSucceedsIffCandidatesWellShaped(table: ClassTable, tt: TD, options: Options)
    requires !options.typeLenient
    ensures MethodBasedGetters(table, tt, options).Ok? <==>
      forall m :: m in Candidates(ClassOf(table, tt).methods, options.ignoredMethods, tt) ==>
        !m.isSynthetic && !IsMisshapen(m)
  {
  }
}
