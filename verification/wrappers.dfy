/** The optional-value datatype shared by the matchers, the calendar and the
    date resolver: `None` stands for "no match" or for an exception that the
    program catches and turns into an empty field. */
module Wrappers {

  datatype Option<+T> = None | Some(value: T)
}
