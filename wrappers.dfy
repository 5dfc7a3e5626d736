/** The optional-value datatype used for Rust's `Option` and for results whose
    error carries no information the server looks at. */
module Wrappers {

  datatype Option<+T> = None | Some(value: T)
}
