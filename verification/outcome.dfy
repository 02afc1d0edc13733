/** How a call of the result types ends: with a value, or by throwing. */
module Outcomes {

  datatype Outcome<T, E> = Value(value: T) | Throws(exception: E)
}
