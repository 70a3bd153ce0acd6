/** The optional values the task tracker works with: a console line that may be
    missing, a number that may not parse, a file that may not exist, a line that
    may not decode. */
module Wrappers {

  datatype Option<+T> = None | Some(value: T)
}
