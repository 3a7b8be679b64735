/** The two failure-carrying shapes the resolvers produce: an absent value
    (JavaScript `undefined`, rendered as GraphQL `null`) and a request that
    either succeeds or raises. */
module Wrappers {

  /** `None` stands for `undefined`/`null`, `Some` for a present value. */
  datatype Option<+T> = None | Some(value: T)

  /** The outcome of a resolver that may throw. */
  datatype Result<+T, +E> = Success(value: T) | Failure(error: E)
}
