/** The outcome of looking a structure over. */
module Checks {

  /** Conditions on whole structures in memory are functions into this type where a predicate
      would do: a predicate is taken apart into its conjuncts at every place where it has to be
      shown, one by one and in every heap, whereas a value is shown to be the same value. */
  datatype Health = Sound | Unsound
}
