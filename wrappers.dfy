/** Small value wrappers shared by the pipeline stages. */
module Wrappers {

  datatype Option<T> = None | Some(value: T)

  datatype Result<T, E> = Ok(value: T) | Err(error: E)

  /** The ways one run of the analysis script can stop abnormally. */
  datatype Failure =
    | LengthMismatch           // pandas refuses to build the frame from unequal columns
    | EmptyTopicInfo           // `iloc[0]` on an empty topic-info table
    | MissingAggregate(topic: int)  // `.values[0]` on an empty query result

  function Min(a: int, b: int): int { if a <= b then a else b }
}
