/** The options the attribute extractor reads (`Options`): type leniency and the
    ignore predicates. An ignore predicate is a user function of the compared type
    and a method. */
module Options {
  import opened Types

  type MethodFilter = (TD, MethodInfo) -> bool

  datatype Options = Options(typeLenient: bool, ignoredMethods: seq<MethodFilter>)
}
