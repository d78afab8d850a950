# deepequals, modelled in Dafny

`deepequals` compares two Java object graphs for structural equality under a
type token. The library descends through arrays, `Optional`s, sets, maps, lists,
collections and iterables. Primitives, boxed values, strings, enums and
unbounded type variables are compared with `equals`. Any other class is compared attribute by
attribute, through its public zero-argument methods and its public final
fields. On top of that the library offers:

- comparators registered per type or per field, which decide a comparison
  outright;
- ignore predicates that drop methods from the attributes;
- an order-lenient mode for sequences;
- a type-lenient mode that tolerates methods that are not getters;
- a verbose mode that prints the path to the first difference;
- a cycle detector that reports a recursion through the same getter.

This project models that core in two layers.

**The specification layer.** Module `Engine` holds the comparison as functions.
They thread the only mutable state, the diagnostic path and the cycle detector,
as a `State` value, and each returns the result together with the new state.

**The imperative layer.** Class `StatefulEngine.Stateful` mirrors
`DeepEquals.Stateful`: the same fields, updated in place by methods with the
same branches. Every comparison method is proved to return exactly what the
corresponding `Engine` function returns from the state before the call, and to
leave exactly the state that function leaves. `CycleDetector.CycleDetector`
keeps the source's bidirectional map as two Dafny maps and is proved against
the pure `Added`/`Removed`.

**Attribute extraction.** `MethodBasedGetter`, `FieldBasedGetter`, `Getters` and
`MethodPredicates` model this part. Java reflection is replaced by a class
table, `Types.ClassTable`, which lists each class's fields and methods with
their modifiers.

**The two composite steps.** The composite step exists in two forms, and
`Ctx.attributeProtocol` (a constant of `Stateful`) chooses between them.

- The live `compareDeep` (DeepEquals.java:220-228) compares every attribute
  with `allMatch`. It never consults field comparators, never pushes attribute
  names and never uses the cycle detector.
- The per-attribute protocol in the comment block at DeepEquals.java:230-255 is
  what the field-comparator, verbose and `detectsCycles` tests expect
  (DeepEqualsTest.java:296-310 and :347-463, test/DeepEqualsTest.java:477-484).
  The older copy's `cyclesAreNotDetected` (DeepEqualsTest.java:485-491) still
  expects the live step's `StackOverflowError`. The protocol registers the
  getter with the cycle detector and pushes the attribute name. It then
  applies a field comparator or recurses, and pops and unregisters when the
  attribute is equal.
- The comment block is older code. It walks a collection `ms` of `Method`s,
  reads them with `invoke(m, x)` and registers the `Method` with the
  detector. Neither `ms` nor `invoke` is defined in DeepEquals.java, and
  `CycleDetector.add` now takes a `Getter` (CycleDetector.java:15). The model
  runs the protocol over the current getters of `Getters.GettersOf`, public
  final fields included. It reads each attribute with `Getter.Get`, resolves
  its type with the getter's type and registers the `Getter`.

Both forms are modelled and proved about. The gap between them is the finding
below.

**Other behaviour kept exactly.**

- The path is a stack of segments. Indexed pushes append `[i]` to the top
  segment.
- In strict mode an indexed pop strips the suffix after the last `[`.
- One `Stateful` keeps its path across calls to `deepEquals`; the source never
  resets it.
- A repeated registration of the same type or field fails with
  `IllegalArgumentException` and keeps the comparators registered before it.

## Model

| member | source | states |
|---|---|---|
| `StatefulEngine.Stateful.constructor` | src/main/java/deepequals/DeepEquals.java:121-130 | a new comparison object has no comparators, no ignore predicates, an empty path, all switches off and a fresh, empty cycle detector with no cycle |
| `StatefulEngine.Stateful.Ignore` | src/main/java/deepequals/DeepEquals.java:167-172 | `ignore(first, rest...)` appends the predicates to the ignored methods in order and changes nothing else |
| `StatefulEngine.Stateful.OrderLenient` | src/main/java/deepequals/DeepEquals.java:175-178 | switches order-lenient mode on and changes nothing else |
| `StatefulEngine.Stateful.TypeLenient` | src/main/java/deepequals/DeepEquals.java:194-197 | switches type-lenient mode on and changes nothing else |
| `StatefulEngine.Stateful.Verbose` | src/main/java/deepequals/DeepEquals.java:200-203 | switches verbose mode on and changes nothing else |
| `StatefulEngine.Stateful.Override` | src/main/java/deepequals/DeepEquals.java:181-191 | registering comparators one after the other leaves exactly the registries and the first duplicate error of `Overrides.RegisterAll` |
| `StatefulEngine.Stateful.PushNode` | src/main/java/deepequals/DeepEquals.java:426-428 | pushes the attribute name as a new top segment |
| `StatefulEngine.Stateful.PopNode` | src/main/java/deepequals/DeepEquals.java:413-415 | drops the top segment, or reports the empty stack and leaves the path as it was |
| `StatefulEngine.Stateful.PushIndexedNode` | src/main/java/deepequals/DeepEquals.java:421-424 | replaces the top segment, or the empty segment on an empty path, by itself followed by `[i]` |
| `StatefulEngine.Stateful.PopIndexedNode` | src/main/java/deepequals/DeepEquals.java:408-411 | strips the index suffix after the last `[` of the top segment; on an empty path it reports the empty stack, and on a top without `[` it reports the index error with the top already popped, as the source's `pop` before the failing `substring` leaves it |
| `StatefulEngine.Stateful.DeepEquals` | src/main/java/deepequals/DeepEquals.java:138-152 | installs the current type-lenient flag and ignore list as the options, creates a fresh cycle detector, and returns and prints exactly what `Engine.DeepEquals` gives for the path before the call; the registries and switches are not changed |
| `StatefulEngine.Stateful.DeepEqualsImpl` | src/main/java/deepequals/DeepEquals.java:345-380 | one comparison step returns exactly `Engine.Impl` from the state before the call and leaves its state: null mismatch, identity, type comparator, `equals`, then the structured kinds |
| `StatefulEngine.Stateful.CompareStructured` | src/main/java/deepequals/DeepEquals.java:358-379 | dispatches arrays, `Optional`, `Set`, `Map`, `List`, `Collection`, `Iterable` and other classes in the source's order, with the result and state of `Engine.Impl` |
| `StatefulEngine.Stateful.CompareArrays` | src/main/java/deepequals/DeepEquals.java:205-210 | compares two arrays element by element under the component type, as `Engine.Impl` does |
| `StatefulEngine.Stateful.CompareOptionals` | src/main/java/deepequals/DeepEquals.java:279-288 | both empty is equal, one empty is unequal, otherwise the contents are compared under the type argument; a missing type argument is an error |
| `StatefulEngine.Stateful.CompareSets` | src/main/java/deepequals/DeepEquals.java:430-435 | two sets are equal exactly when they have the same size and every element of x is `equals` to some element of y; anything that is not a set is a `ClassCastException` |
| `StatefulEngine.Stateful.CompareMaps` | src/main/java/deepequals/DeepEquals.java:269-277 | equal sizes, then every entry of x must have its key in y and a deeply equal value under the second type argument; the loop is proved against `Engine.MapEntries` |
| `StatefulEngine.Stateful.CompareLists` | src/main/java/deepequals/DeepEquals.java:265-267 | two lists are compared as sequences under the first type argument |
| `StatefulEngine.Stateful.CompareCollections` | src/main/java/deepequals/DeepEquals.java:212-217 | collections, and iterables by the same route (lines 258-263), are compared as sequences under the first type argument |
| `StatefulEngine.Stateful.CompareSequencesOf` | src/main/java/deepequals/DeepEquals.java:290-295 | picks the lenient or the strict walk by the order-lenient switch, with the result and state of `Engine.Sequences` |
| `StatefulEngine.Stateful.CompareSequencesOfStrict` | src/main/java/deepequals/DeepEquals.java:321-342 | the position-by-position walk with its indexed pushes and pops computes `Engine.Strict` |
| `StatefulEngine.Stateful.CompareSequencesOfLenient` | src/main/java/deepequals/DeepEquals.java:297-319 | the size check and the claim of one unused matching element of y per element of x compute `Engine.Lenient` |
| `StatefulEngine.Stateful.ClaimIndex` | src/main/java/deepequals/DeepEquals.java:307-317 | the search for the first unclaimed element of y that matches computes `Engine.Claim` |
| `StatefulEngine.Stateful.CompareDeep` | src/main/java/deepequals/DeepEquals.java:220-228 | extracts the getters, reports an extraction error, and runs the live or the protocol composite step |
| `StatefulEngine.Stateful.CompareAttributes` | src/main/java/deepequals/DeepEquals.java:223-227 | the live `allMatch` over the getters computes `Engine.Deep` |
| `StatefulEngine.Stateful.CompareAttributesTracked` | src/main/java/deepequals/DeepEquals.java:230-255 | the per-attribute protocol, one `ProtocolStep` per getter, computes `Engine.Protocol` |
| `StatefulEngine.Stateful.ProtocolStep` | src/main/java/deepequals/DeepEquals.java:232-253 | one attribute of the protocol either ends the comparison with `Engine.Protocol`'s result and state, or leaves the state from which the protocol goes on with the next attribute |
| `StatefulEngine.Stateful.ProtocolEnter` | src/main/java/deepequals/DeepEquals.java:233-241 | registering the getter reports a cycle with the detector's report; otherwise the name is pushed, and a throwing accessor on x or on y ends the step with its error |
| `StatefulEngine.Stateful.ProtocolLeave` | src/main/java/deepequals/DeepEquals.java:248-252 | after the comparison: an error propagates, false unregisters the getter with the name left on the path, true pops the name (an empty stack is the error) and unregisters |
| `StatefulEngine.Stateful.CompareAttribute` | src/main/java/deepequals/DeepEquals.java:242-247 | a field comparator registered for (type, name) decides without touching the state; otherwise the attribute values are compared recursively as `Engine.Impl` does |
| `Engine.KindOf` | src/main/java/deepequals/DeepEquals.java:355-379 | only array types get the array kind; the rest of the dispatch is stated by the `EngineProperties` lemmas |
| `Engine.Claim` | src/main/java/deepequals/DeepEquals.java:307-317 | a claimed index is in range and not yet claimed (that its element matches, and is the lowest match, is `EngineProperties.ClaimIsLowest`) |
| `Engine.DeepEquals` | src/main/java/deepequals/DeepEquals.java:138-152 | something is printed exactly when verbose mode is on and the result is not `true`, and what is printed is the final path joined with `.` |
| `EngineProperties.NullAndIdentity` | src/main/java/deepequals/DeepEquals.java:346-351 | exactly one null gives false and the same reference gives true, with the state unchanged |
| `EngineProperties.TypeComparatorDecides` | src/main/java/deepequals/DeepEquals.java:352-356 | a registered type comparator decides outright; otherwise value types are compared with `equals` |
| `EngineProperties.ValueEqualityTypes` | src/main/java/deepequals/DeepEquals.java:437-449 | primitives and their wrapper classes, enums, `String`, `LocalDate`, `LocalTime`, `LocalDateTime`, `Object` and every unbounded type variable are compared with `equals` |
| `EngineProperties.OtherTypesAreComposite` | src/main/java/deepequals/DeepEquals.java:358-379 | a class that is neither a value type nor one of the container interfaces is compared attribute by attribute |
| `EngineProperties.OptionalSemantics` | src/main/java/deepequals/DeepEquals.java:279-288 | both empty gives true, one empty gives false, and two present values are compared under the type argument |
| `EngineProperties.SetSemantics` | src/main/java/deepequals/DeepEquals.java:430-435 | sets are equal exactly when the sizes agree and every element of x is contained in y; the state is untouched and no error arises |
| `EngineProperties.MapEntriesIff` | src/main/java/deepequals/DeepEquals.java:272-276 | the entry walk succeeds exactly when every remaining entry of x has its key in y and a deeply equal value |
| `EngineProperties.MapSemantics` | src/main/java/deepequals/DeepEquals.java:269-277 | without two type arguments a map comparison is an error; otherwise it is true exactly when the sizes agree and every entry matches |
| `EngineProperties.StrictIff` | src/main/java/deepequals/DeepEquals.java:321-342 | strict comparison is true exactly when the lengths agree and every position is deeply equal |
| `EngineProperties.PushIndexedNormalized` | src/main/java/deepequals/DeepEquals.java:421-424 | pushing an index onto an empty path or onto the single empty segment gives the same path |
| `EngineProperties.StrictPrefixFailure` | src/main/java/deepequals/DeepEquals.java:325-340 | when the shorter sequence matches the longer one's prefix, the result is false and the path ends at the first missing index |
| `EngineProperties.StrictFirstMismatch` | src/main/java/deepequals/DeepEquals.java:325-335 | strict comparison stops at the first unequal position, with that position's result and path |
| `EngineProperties.ClaimIsLowest` | src/main/java/deepequals/DeepEquals.java:307-317 | the claimed element of y is the lowest unclaimed match, and a failed search means no unclaimed element matches |
| `EngineProperties.LenientSound` | src/main/java/deepequals/DeepEquals.java:297-319 | a lenient success yields an injective matching of every element of x to a distinct, deeply equal element of y |
| `EngineProperties.LenientSizes` | src/main/java/deepequals/DeepEquals.java:299-303 | in lenient mode sequences of different lengths are unequal, with the state unchanged |
| `EngineProperties.ListDispatch` | src/main/java/deepequals/DeepEquals.java:265-267 | a list comparison is the sequence comparison of the elements under the first type argument |
| `EngineProperties.ListSemantics` | src/main/java/deepequals/DeepEquals.java:370-372 | a list without a type argument is an error, a non-list value is a `ClassCastException`, and strict lists are equal exactly when they are equal position by position |
| `EngineFrame.FrameImpl` | src/main/java/deepequals/DeepEquals.java:345-380 | a comparison only extends the path; success leaves the cycle detector as it was and, in strict mode, restores the path; in order-lenient live mode the state is untouched; no stack error escapes |
| `EngineFrame.FrameMapEntries` | src/main/java/deepequals/DeepEquals.java:272-276 | the entry walk keeps the same frame |
| `EngineFrame.FrameSequences` | src/main/java/deepequals/DeepEquals.java:290-295 | sequence comparison keeps the same frame |
| `EngineFrame.FrameStrict` | src/main/java/deepequals/DeepEquals.java:321-342 | the strict walk keeps the frame, so its indexed pops never fail |
| `EngineFrame.FrameLenient` | src/main/java/deepequals/DeepEquals.java:297-319 | the lenient walk keeps the frame |
| `EngineFrame.FrameClaim` | src/main/java/deepequals/DeepEquals.java:307-317 | the search for a match keeps the frame |
| `EngineFrame.FrameDeep` | src/main/java/deepequals/DeepEquals.java:220-228 | the live composite step keeps the frame |
| `EngineFrame.FrameProtocol` | src/main/java/deepequals/DeepEquals.java:230-255 | the per-attribute protocol keeps the frame: every push of an equal attribute is popped and every registration removed |
| `EngineFrame.FrameProtocolAttribute` | src/main/java/deepequals/DeepEquals.java:238-253 | one attribute step of the protocol keeps the frame |
| `EngineFrame.StrictStepEqual` | src/main/java/deepequals/DeepEquals.java:327-333 | an equal position is followed by the next one from the popped path |
| `EngineFrame.StrictStepOther` | src/main/java/deepequals/DeepEquals.java:327-335 | an unequal position or an error ends the walk with that position's result |
| `EngineFrame.FrameContainer` | src/main/java/deepequals/DeepEquals.java:355-378 | the container branches of the dispatch keep the frame |
| `EngineFrame.FrameComposite` | src/main/java/deepequals/DeepEquals.java:220-255 | the composite branch keeps the frame in either form of the step |
| `EngineFrame.FrameProtocolAfter` | src/main/java/deepequals/DeepEquals.java:248-252 | once the attribute's comparison kept its own frame, the pop and the unregistration restore the caller's frame |
| `EngineFrame.ProtocolBeforeComparison` | src/main/java/deepequals/DeepEquals.java:233-241 | the protocol's outcome when the getter closes a cycle or an accessor throws, before any comparison |
| `EngineFrame.ProtocolAfterComparison` | src/main/java/deepequals/DeepEquals.java:242-252 | the protocol's outcome in terms of the attribute comparison's outcome: an error is final, false unregisters, true pops (or fails on an empty stack) and goes on with the next attribute |
| `EngineFrame.StrictAfterComparison` | src/main/java/deepequals/DeepEquals.java:325-333 | the strict walk's outcome in terms of one position's comparison: anything but true is final, true pops the index (or fails) and goes on with the next position |
| `EngineIndependence.IndependentImpl` | src/main/java/deepequals/DeepEquals.java:345-380 | the result and the detector after a comparison do not depend on the path it starts from |
| `EngineIndependence.IndependentMapEntries` | src/main/java/deepequals/DeepEquals.java:272-276 | the same for the entry walk |
| `EngineIndependence.IndependentSequences` | src/main/java/deepequals/DeepEquals.java:290-295 | the same for sequence comparison |
| `EngineIndependence.IndependentStrict` | src/main/java/deepequals/DeepEquals.java:321-342 | the same for the strict walk |
| `EngineIndependence.IndependentLenient` | src/main/java/deepequals/DeepEquals.java:297-319 | the same for the lenient walk |
| `EngineIndependence.IndependentClaim` | src/main/java/deepequals/DeepEquals.java:307-317 | the same for the search for a match |
| `EngineIndependence.IndependentDeep` | src/main/java/deepequals/DeepEquals.java:220-228 | the same for the live composite step |
| `EngineIndependence.IndependentProtocol` | src/main/java/deepequals/DeepEquals.java:230-255 | the same for the per-attribute protocol |
| `CompositeProperties.CompositeDispatch` | src/main/java/deepequals/DeepEquals.java:220-222 | an extraction error is the result, otherwise the live or the protocol step runs over the extracted getters |
| `CompositeProperties.DeepAllMatch` | src/main/java/deepequals/DeepEquals.java:223-227 | the live step is true exactly when every attribute reads without error on both sides and compares deeply equal |
| `CompositeProperties.ProtocolCycle` | src/main/java/deepequals/DeepEquals.java:233-236 | a getter already on the detector's sequence ends the comparison with the cycle report, before anything is pushed |
| `CompositeProperties.ProtocolAccessorFailure` | src/main/java/deepequals/DeepEquals.java:238-241 | an accessor that fails is reported with its class and name, with the attribute left on the path |
| `CompositeProperties.ProtocolNestedFailure` | src/main/java/deepequals/DeepEquals.java:244-248 | an error inside an attribute is the result of the whole step, with that attribute's path |
| `CompositeProperties.ProtocolFieldOverrideDecides` | src/main/java/deepequals/DeepEquals.java:242-245 | a field comparator's verdict replaces the recursion: false stops with the attribute on the path, true goes on to the next attribute |
| `CompositeProperties.ProtocolEqualAttribute` | src/main/java/deepequals/DeepEquals.java:249-253 | an equal attribute is popped and unregistered, and the step goes on with the next from the same state |
| `CompositeProperties.ProtocolUnequalAttribute` | src/main/java/deepequals/DeepEquals.java:249-253 | an unequal attribute stops with false, leaving the attribute name and what lies below it on the path |
| `Cycle.ToString` | src/main/java/deepequals/Cycle.java:18-28 | the loop builds exactly the header followed by one numbered line per getter |
| `Cycle.ReportStartsWithHeader` | src/main/java/deepequals/Cycle.java:20 | the report begins with the line naming the index where the cycle starts |
| `Cycle.ReportLineCount` | src/main/java/deepequals/Cycle.java:19-27 | the report has one line more than the cycle has getters |
| `Cycle.LinesCount` | src/main/java/deepequals/Cycle.java:21-26 | the entry part has one line per getter |
| `Cycle.EntryLineHasOneNewline` | src/main/java/deepequals/Cycle.java:22-25 | each entry line ends in exactly one line break |
| `CycleDetector.IndexOf` | src/main/java/deepequals/CycleDetector.java:16 | the index where a getter sits is its first and, for a distinct sequence, only position |
| `CycleDetector.Added` | src/main/java/deepequals/CycleDetector.java:15-22 | a getter already present leaves the sequence alone and records a cycle; a new one is appended and the recorded cycle is kept |
| `CycleDetector.Removed` | src/main/java/deepequals/CycleDetector.java:28-30 | drops the last getter and keeps the recorded cycle |
| `CycleDetector.AddedKeepsDistinct` | src/main/java/deepequals/CycleDetector.java:12-22 | the sequence never holds a getter twice, as the bidirectional map requires |
| `CycleDetector.RemovedUndoesAdded` | src/main/java/deepequals/CycleDetector.java:15-30 | removing right after adding a new getter restores the detector |
| `CycleDetector.CycleIffRepeated` | src/main/java/deepequals/CycleDetector.java:15-22 | from a detector without a cycle, adding records a cycle exactly when the getter is already present, and the cycle starts at that getter's position |
| `CycleDetector.InOrder` | src/main/java/deepequals/CycleDetector.java:33-35 | the getters listed by ascending position |
| `CycleDetector.RemoveLast` | src/main/java/deepequals/CycleDetector.java:29 | removing the last position keeps the two maps inverse and drops the last getter |
| `CycleDetector.CycleDetector.constructor` | src/main/java/deepequals/CycleDetector.java:12-13 | a new detector is empty and has no cycle |
| `CycleDetector.CycleDetector.Add` | src/main/java/deepequals/CycleDetector.java:15-22 | updates the bidirectional map and the cycle as `Added` says |
| `CycleDetector.CycleDetector.GetCycle` | src/main/java/deepequals/CycleDetector.java:24-26 | returns the recorded cycle |
| `CycleDetector.CycleDetector.Remove` | src/main/java/deepequals/CycleDetector.java:28-30 | updates the bidirectional map as `Removed` says |
| `CycleDetector.CycleDetector.CycleAt` | src/main/java/deepequals/CycleDetector.java:32-36 | the cycle lists all getters in position order and starts at the given index |
| `Overrides.RegisterOne` | src/main/java/deepequals/DeepEquals.java:382-406 | a comparator is refused exactly when its type or field is taken; otherwise it is added under its key |
| `Overrides.RegisterAllOnlyAdds` | src/main/java/deepequals/DeepEquals.java:181-191 | registering never removes or replaces an existing comparator |
| `Overrides.RegisterAllFresh` | src/main/java/deepequals/DeepEquals.java:181-191 | comparators on distinct free keys are all registered without error |
| `Overrides.RegisterAllStopsAtFirstDuplicate` | src/main/java/deepequals/DeepEquals.java:181-191 | the first comparator whose key is taken in the registry built so far (before the call or earlier in the same call) stops the loop with its error, and the comparators before it stay registered |
| `Overrides.RegisteredKeysAreTaken` | src/main/java/deepequals/DeepEquals.java:181-191 | after a registration nothing refused, every comparator of the call has its key taken |
| `Overrides.RepeatedKeyIsRefused` | src/test/java/deepequals/test/DeepEqualsTest.java:518-524 | two comparators for the same key in one call: the first is registered, the second refused |
| `ObjectPath.PushNode` | src/main/java/deepequals/DeepEquals.java:426-428 | the name becomes the new top segment and nothing below changes |
| `ObjectPath.PopNode` | src/main/java/deepequals/DeepEquals.java:413-415 | pops the top segment; an empty stack is an error |
| `ObjectPath.PushIndexed` | src/main/java/deepequals/DeepEquals.java:421-424 | the top segment, or the empty segment on an empty stack, gets `[i]` appended; the rest is unchanged |
| `ObjectPath.PopIndexed` | src/main/java/deepequals/DeepEquals.java:408-411 | succeeds exactly when the top segment contains `[`, keeps the lower segments, and otherwise reports the Java exception |
| `ObjectPath.AfterFailedPopIndexed` | src/main/java/deepequals/DeepEquals.java:408-411 | the path a failed indexed pop leaves: the top segment popped |
| `ObjectPath.LastBracketOfIndexed` | src/main/java/deepequals/DeepEquals.java:410 | after an indexed push the last `[` of the segment is the one just appended |
| `ObjectPath.PopIndexedAfterPushIndexed` | src/main/java/deepequals/DeepEquals.java:408-424 | an indexed pop undoes an indexed push, leaving the single empty segment when the path was empty |
| `ObjectPath.PushIndexedOnEmptySegment` | src/main/java/deepequals/DeepEquals.java:421-424 | an indexed push onto the single empty segment is the same as onto the empty path |
| `Getter.Get` | src/main/java/deepequals/MethodBasedGetter.java:49-56 | reading an attribute succeeds exactly when the object has that accessor and it returns; a failure names the declaring class and the attribute |
| `Getter.GetterIdentity` | src/main/java/deepequals/MethodBasedGetter.java:40-47 | two getters are the same exactly when they wrap the same method or field for the same type token |
| `Getters.Union` | src/main/java/deepequals/Getters.java:16-18 | the union holds exactly the getters of both parts, with the field getters first |
| `Getters.UnionDistinct` | src/main/java/deepequals/Getters.java:16-18 | the union of two duplicate-free lists has no duplicate |
| `Getters.GettersOf` | src/main/java/deepequals/Getters.java:15-19 | the getters are the method-based ones and the public final fields; an extraction error is passed on |
| `FieldBasedGetter.PublicFields` | src/main/java/deepequals/FieldBasedGetter.java:67 | exactly the public fields of the class |
| `FieldBasedGetter.FinalGetters` | src/main/java/deepequals/FieldBasedGetter.java:68-70 | exactly one getter per final field |
| `FieldBasedGetter.FieldBasedGetters` | src/main/java/deepequals/FieldBasedGetter.java:66-73 | the getters are exactly the public final fields of the class, under the compared type |
| `FieldBasedGetter.NoGetterForMutableOrHiddenField` | src/main/java/deepequals/FieldBasedGetter.java:17 | a field that is not both public and final is never an attribute |
| `FieldBasedGetter.FieldGetterName` | src/main/java/deepequals/FieldBasedGetter.java:55-58 | a field getter is named after its field |
| `MethodBasedGetter.Candidates` | src/main/java/deepequals/MethodBasedGetter.java:121-130 | the candidate methods are the public, non-bridge, non-static methods that are not `Object`'s and not ignored |
| `MethodBasedGetter.WellShaped` | src/main/java/deepequals/MethodBasedGetter.java:105-110 | drops the methods that take arguments or return void |
| `MethodBasedGetter.FirstSynthetic` | src/main/java/deepequals/MethodBasedGetter.java:148-156 | finds a synthetic method exactly when there is one |
| `MethodBasedGetter.MethodsToInvoke` | src/main/java/deepequals/MethodBasedGetter.java:121-140 | synthetic methods are refused; then type-lenient mode keeps the well-shaped candidates, and strict mode refuses a method with arguments or returning void |
| `MethodBasedGetter.ToGetters` | src/main/java/deepequals/MethodBasedGetter.java:73-78 | one getter per method, in order, under the compared type |
| `MethodBasedGetter.MethodBasedGetters` | src/main/java/deepequals/MethodBasedGetter.java:73-79 | the getters are exactly the methods to invoke, and an error is passed on |
| `MethodBasedGetter.LenientExtractionFailsOnlyOnSynthetic` | src/main/java/deepequals/MethodBasedGetter.java:131-138 | in type-lenient mode the only possible error is a synthetic method |
| `MethodBasedGetter.IgnoredMethodIsNotAGetter` | src/main/java/deepequals/MethodBasedGetter.java:112-115 | a method an ignore predicate selects is never an attribute |
| `MethodBasedGetter.StrictSucceedsIffCandidatesWellShaped` | src/main/java/deepequals/MethodBasedGetter.java:131-135 | in strict mode extraction succeeds exactly when no candidate is synthetic, takes arguments or returns void |
| `MethodPredicates.NameSet` | src/main/java/deepequals/MethodPredicates.java:14-17 | the set of the first name and the rest |
| `MethodPredicates.Methods` | src/main/java/deepequals/MethodPredicates.java:13-19 | the predicate selects exactly the methods with one of the names, on any type |
| `MethodPredicates.EnsureGetMethods` | src/main/java/deepequals/MethodPredicates.java:34-43 | succeeds exactly when the class has a public zero-argument method for every name, and otherwise names a missing one |
| `MethodPredicates.MethodsOn` | src/main/java/deepequals/MethodPredicates.java:21-32 | validates the names against the scope, then selects exactly the named methods when the compared type is the scope |
| `MethodPredicates.OneFilterOrTwo` | src/test/java/deepequals/test/ignore/ByNameTest.java:15-21 | ignoring two names with one predicate is the same as ignoring them with one predicate each |
| `MethodPredicates.OneScopedFilterOrTwo` | src/main/java/deepequals/MethodPredicates.java:21-32 | the same for predicates scoped to a type |
| `MethodPredicates.ScopedFilterIgnoresNothingElsewhere` | src/main/java/deepequals/MethodPredicates.java:30-31 | a scoped predicate selects nothing on another type |
| `Types.TypeArg` | src/main/java/deepequals/DeepEquals.java:515-518 | the i-th type argument exists exactly when the token is a parameterized class with more than i arguments |
| `Types.Unwrap` | src/main/java/deepequals/DeepEquals.java:438-440 | unwrapping changes a name only into a primitive's |
| `Values.Contains` | src/main/java/deepequals/DeepEquals.java:434 | `contains` is true exactly when some element is `equals` to the probe |
| `Values.KeyIndex` | src/main/java/deepequals/DeepEquals.java:274-276 | finds the first entry whose key is `equals` to the probe, and fails exactly when there is none |
| `Scenarios.VerboseNamesTheAttribute` | src/test/java/deepequals/test/DeepEqualsTest.java:348-351 | two `Foo`s whose strings differ are unequal and verbose mode prints `getString` |
| `Scenarios.VerboseLiveLeavesPathEmpty` | src/main/java/deepequals/DeepEquals.java:220-228 | with the live composite step the same comparison prints an empty path |
| `Scenarios.LiveIgnoresFieldComparator` | src/test/java/deepequals/DeepEqualsTest.java:296-310 | the live step compares a field covered by a field comparator with `equals`, giving false where the test expects true |
| `Scenarios.ProtocolHonoursFieldComparator` | src/test/java/deepequals/test/DeepEqualsTest.java:293-302 | the protocol lets the field comparator decide and the objects are equal, with the path and detector restored |
| `Scenarios.FoosDiffer` | src/main/java/deepequals/DeepEquals.java:238-253 | two `Foo`s with different strings are unequal, with `getString` left on the path |
| `Scenarios.SuppliersDiffer` | src/main/java/deepequals/DeepEquals.java:238-253 | two suppliers differ exactly as their supplied values do, under the path below `get` |
| `Scenarios.SingletonListsAreStrict` | src/main/java/deepequals/DeepEquals.java:265-267 | two one-element lists are compared by the strict walk in strict mode |
| `Scenarios.VerboseNestedPath` | src/test/java/deepequals/test/DeepEqualsTest.java:353-367 | a difference inside a supplied `Foo` prints `get.getString` |
| `Scenarios.FooListsDiffer` | src/main/java/deepequals/DeepEquals.java:321-342 | a difference in the first `Foo` of a list under `get` leaves `get[0]` and `getString` on the path |
| `Scenarios.VerboseIndexedPath` | src/test/java/deepequals/test/DeepEqualsTest.java:417-429 | a difference in a supplied list of `Foo`s prints `get[0].getString` |
| `Scenarios.VerboseShorterList` | src/test/java/deepequals/test/DeepEqualsTest.java:409-415 | a list that is a proper prefix of the other prints `[1]`, the first missing index |
| `Scenarios.NextNodesAreACycle` | src/main/java/deepequals/DeepEquals.java:233-236 | descending into `getNext` while `getNext` is registered reports the cycle |
| `Scenarios.RecursiveTypeReportsCycle` | src/test/java/deepequals/test/DeepEqualsTest.java:477-484 | the protocol reports a cycle on a self-referencing type |
| `Scenarios.RecursiveTypeLive` | src/test/java/deepequals/DeepEqualsTest.java:485-491 | the live step does no cycle detection: finite chains of the recursive type simply compare equal, and the path and detector stay clean |
| `Scenarios.VerboseAccessorFailure` | src/test/java/deepequals/test/DeepEqualsTest.java:527-546 | an accessor that throws is reported with its class and name, and verbose mode prints that attribute |

## Left out

- Java reflection and Guava's `TypeToken` are replaced by the class table and a
  type descriptor. `getTypeArgToken`, generic resolution and `setAccessible`
  (DeepEquals.java:515-518, MethodBasedGetter.java:49-56) are modelled only
  through their results.
- For verbose output, only the printed text is modelled. The write to
  `System.err` is left out because it is I/O.
- `deepEqualsTypeUnsafe` and the `Class` overloads (DeepEquals.java:155-164)
  are left out. They only turn a `Class` into a type token, and the model has
  type descriptors only.
- The static factories `comparator`, `field`, `withOptions` and the static
  `deepEquals` (DeepEquals.java:473-508) are left out. They only build the
  records and objects modelled here as datatypes and the `Stateful`
  constructor.
- `TypeTokenMatcherComparator` is not part of this model.
- Type variables carry no bound. A bounded variable (`class Box<T extends Foo>`)
  has the bound as its raw type in Java, and `compareWithEquals` and the getter
  lookup then use `Foo`. The model gives every type variable the raw type
  `Object`, so such a variable is compared with `equals` and has no getters.
- `Cycle.ToString` renders the `%d` of `String.format`
  (Cycle.java:20-24) with ASCII digits. Java's `Formatter` uses the digits of
  the default locale, which differ in a few locales.
- The `ignoredFields` field is left out because the source never reads it.
- Runtime values are finite trees, because Dafny datatypes cannot form a
  cycle.
  - A genuinely cyclic object graph, and the `StackOverflowError` the live
    step would raise on one, are not modelled.
  - The protocol's cycle detection works on getters, so it is modelled fully.
- Exceptions thrown by accessors are one error, `AccessorFailure`, naming the
  declaring class and the attribute. The Java exception classes are not
  distinguished.
- The runtime `equals` of values is a parameter, as is every user predicate.
- Iteration order of Java sets and maps is modelled as the order of the
  model's sequences.
  - This covers the getter sets, a set's elements and the source's `findAny`,
    which is modelled as the first match.
  - A set value is a sequence whose elements the source treats as unordered.
- `StatefulEngine.Stateful.constructor`: the source leaves the cycle detector
  null until the first comparison. The model creates one right away and
  replaces it on every `deepEquals` call, exactly as the source does then.
- `MethodPredicates.MethodsOn`: the source compares a `Class` with the
  compared `TypeToken` (MethodPredicates.java:30), which never matches. The
  model compares the descriptors, which is what the tests expect
  (ignore/InheritanceTest.java:28-45).
- `Engine.KindOf`: its own contract states only that the array kind means an
  array type. The rest of the dispatch is proved in
  `EngineProperties.ValueEqualityTypes`, `EngineProperties.OtherTypesAreComposite`
  and the container lemmas.
- Integer widths do not matter in the core. Sizes and indices are natural
  numbers, and a Java `int` would overflow only beyond 2^31 elements.

## Findings

| source | as written | input that shows it | evidently intended | confidence | as-written member | corrected member |
|---|---|---|---|---|---|---|
| src/main/java/deepequals/DeepEquals.java:220-228 | the live composite step compares every attribute with `allMatch`: no field comparator is consulted, no attribute name is pushed, and the cycle detector is never used | a class whose `bad()` returns a fresh string on every call, with a field comparator on `bad` that always agrees (src/test/java/deepequals/DeepEqualsTest.java:296-310): the live step returns false while the test expects true; in verbose mode two `Foo`s with different strings print an empty path instead of `getString` | the per-attribute protocol of DeepEquals.java:230-255, run over the current getters: register the getter, check for a cycle, push the name, let a field comparator decide or recurse, then pop and unregister; the older copy's `cyclesAreNotDetected` (DeepEqualsTest.java:485-491) still expects the live step's `StackOverflowError` | high; not executed | `Scenarios.LiveIgnoresFieldComparator` | `Scenarios.ProtocolHonoursFieldComparator` |
