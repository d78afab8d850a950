/** The exceptions the engine and its configuration raise, as values. */
module Errors {
  import opened Types

  datatype ShapeViolation = WithArguments | ReturningVoid

  datatype Error =
    /** IllegalClassException: a composite type has an accessor taking arguments
        or returning void while the engine is not type-lenient. */
    | IllegalShape(className: string, violation: ShapeViolation)
    /** UnsupportedOperationException("method <name> is synthetic"). */
    | SyntheticMethod(methodName: string)
    /** The cycle error of the per-attribute protocol, carrying the cycle report. */
    | CycleDetected(report: string)
    /** An accessor (field read or method call) failed; propagated unchanged. */
    | AccessorFailure(declaringClass: string, name: string)
    /** ClassCastException: a value is not of the container kind its declared
        type says. */
    | ClassCast
    /** The declared type has no type argument at the position a container
        branch needs (a raw `List`, say). */
    | NoTypeArgument
    /** Stack.pop on an empty diagnostic path. */
    | EmptyStack
    /** String.substring(0, -1) in popIndexedNode on a top segment without '['. */
    | IndexOutOfBounds
    /** IllegalArgumentException from registering a second type comparator. */
    | DuplicateTypeComparator(typeToken: TD)
    /** IllegalArgumentException from registering a second field comparator. */
    | DuplicateFieldComparator(field: FieldKey)
    /** IllegalArgumentException(name) from a scoped ignore predicate naming a
        method the scope type does not have. */
    | UnknownMethodName(name: string)
}
