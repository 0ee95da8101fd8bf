/** Failure-compatible wrappers shared by the annotator and the scrubbing rules.
    Every `panic!`, `assert_eq!`, `unwrap`, `expect`, `todo!` and out-of-range
    index of the Rust crate becomes one `Failure` kind carried by `Err`. */
module Outcomes {

  datatype Option<T> = None | Some(value: T)

  /** The reasons a run of the crate aborts. */
  datatype Failure =
    | WrongResultCount      // `assert_eq!` on the number of "Result:\n" sections
    | MissingCommandName    // `[0]` on the empty token list before "Result:\n"
    | WrongExamplesCount    // `assert_eq!` on the number of "Examples:\n" sections
    | MissingFirstChar      // `expect("Missing first char!")`
    | UnexpectedEnd         // `next().unwrap()` on an exhausted character stream
    | NonAscii              // `panic!("character is UTF-8 but not ASCII!")`
    | Unimplemented         // `todo!()` for a frame that is neither `{` nor `[`
    | RemoveFromEmpty       // `Vec::remove(0)` on an empty vector
    | PopFromEmpty          // `pop().unwrap()` on an empty vector
    | MissingMetadata       // `[1]` on the `splitn(2, ':')` pieces of a field line
    | MissingParenthesis    // `[1]` on the `(`/`)` pieces of a field's metadata
    | UnknownTypeAnnotation // `panic!` in `make_label`
    | JsonParseFailure      // `expect` on `serde_json::from_str`
    | MissingDeltasMarker   // `[1]` on the pieces of the getaddressdeltas help

  datatype Result<T> = Ok(value: T) | Err(failure: Failure) {

    predicate IsFailure() {
      Err?
    }

    function PropagateFailure<U>(): Result<U>
      requires Err?
    {
      Err(failure)
    }

    function Extract(): T
      requires Ok?
    {
      value
    }
  }
}
